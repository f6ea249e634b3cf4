/**
 * The JavaScript string operations the server relies on, over `string` (= seq<char>):
 * `startsWith`, `includes`, `toLowerCase` (ASCII letters only), `split`, `Array.join`
 * and the decimal rendering of a number inside a template string.
 */
module Strings {

  /** `s.startsWith(prefix)`: a raw character-prefix test, no notion of path segments. */
  predicate StartsWith(s: string, prefix: string) {
    |prefix| <= |s| && s[..|prefix|] == prefix
  }

  /** A prefix stays a prefix behind any common start. */
  lemma StartsWithBehind(p: string, s: string, prefix: string)
    requires StartsWith(s, prefix)
    ensures StartsWith(p + s, p + prefix)
  {
    assert (p + s)[..|p + prefix|] == p + s[..|prefix|];
  }

  /** `s.includes(w)`, scanning the start positions of `s` from left to right. */
  predicate Contains(s: string, w: string)
    decreases |s|
  {
    StartsWith(s, w) || (|s| > 0 && Contains(s[1..], w))
  }

  /** `w` occurs in `s` starting at position `i`. */
  predicate OccursAt(s: string, w: string, i: int) {
    0 <= i <= |s| - |w| && s[i..i + |w|] == w
  }

  /** An occurrence at position `i` is found by the left-to-right scan. */
  lemma {:induction false} OccursAtContains(s: string, w: string, i: int)
    requires OccursAt(s, w, i)
    ensures Contains(s, w)
    decreases i
  {
    if i == 0 {
      assert s[..|w|] == s[i..i + |w|];
    } else {
      assert s[i..i + |w|] == s[1..][i - 1..i - 1 + |w|];
      OccursAtContains(s[1..], w, i - 1);
    }
  }

  /** `includes` holds exactly when `w` occurs as a slice of `s` at some position. */
  lemma {:induction false} ContainsIffOccurs(s: string, w: string)
    ensures Contains(s, w) <==> exists i :: OccursAt(s, w, i)
    decreases |s|
  {
    if exists i :: OccursAt(s, w, i) {
      var i :| OccursAt(s, w, i);
      OccursAtContains(s, w, i);
    }
    if StartsWith(s, w) {
      assert OccursAt(s, w, 0);
    } else if Contains(s, w) {
      ContainsIffOccurs(s[1..], w);
      var i :| OccursAt(s[1..], w, i);
      assert s[i + 1..i + 1 + |w|] == s[1..][i..i + |w|];
      assert OccursAt(s, w, i + 1);
    }
  }

  /** `toLowerCase` on one character, for the ASCII letters. */
  function LowerChar(c: char): char {
    if 'A' <= c <= 'Z' then (c as int + 32) as char else c
  }

  /** `toLowerCase` on a string: every character mapped by LowerChar, in place. */
  function Lower(s: string): (r: string)
    ensures |r| == |s|
    ensures forall i :: 0 <= i < |s| ==> r[i] == LowerChar(s[i])
    ensures forall i :: 0 <= i < |s| ==> !('A' <= r[i] <= 'Z')
    decreases |s|
  {
    if |s| == 0 then "" else [LowerChar(s[0])] + Lower(s[1..])
  }

  /** Lower-casing twice is lower-casing once. */
  lemma LowerIdempotent(s: string)
    ensures Lower(Lower(s)) == Lower(s)
  {
    var l := Lower(s);
    assert forall i :: 0 <= i < |l| ==> LowerChar(l[i]) == l[i];
  }

  /** A string whose characters lower-case one by one to `t` lower-cases to `t`. */
  lemma LowerPointwise(s: string, t: string)
    requires |s| == |t|
    requires forall i :: 0 <= i < |s| ==> LowerChar(s[i]) == t[i]
    ensures Lower(s) == t
  {
  }

  /** `ws.join(sep)`: the words with `sep` between neighbours and nowhere else. */
  function Join(ws: seq<string>, sep: string): string
    decreases |ws|
  {
    if |ws| == 0 then ""
    else if |ws| == 1 then ws[0]
    else ws[0] + sep + Join(ws[1..], sep)
  }

  /** Appending a word to a non-empty list appends one separator and the word. */
  lemma {:induction false} JoinSnoc(ws: seq<string>, x: string, sep: string)
    requires |ws| > 0
    ensures Join(ws + [x], sep) == Join(ws, sep) + sep + x
    decreases |ws|
  {
    if |ws| == 1 {
      assert ws + [x] == [ws[0], x];
      assert [ws[0], x][1..] == [x];
    } else {
      assert (ws + [x])[1..] == ws[1..] + [x];
      JoinSnoc(ws[1..], x, sep);
    }
  }

  /**
   * `s.split(sep)` for a non-empty separator: the pieces between the occurrences of
   * `sep`, found from left to right; an empty string gives one empty piece.
   */
  function SplitOn(s: string, sep: string): (r: seq<string>)
    requires |sep| > 0
    ensures |r| >= 1
    decreases |s|
  {
    if |s| == 0 then [""]
    else if StartsWith(s, sep) then [""] + SplitOn(s[|sep|..], sep)
    else
      var rest := SplitOn(s[1..], sep);
      [[s[0]] + rest[0]] + rest[1..]
  }

  /** No piece of a split on a one-character separator holds that character. */
  lemma {:induction false} SplitOnPiecesFree(s: string, sep: string)
    requires |sep| == 1
    ensures forall i :: 0 <= i < |SplitOn(s, sep)| ==> sep[0] !in SplitOn(s, sep)[i]
    decreases |s|
  {
    if |s| == 0 {
    } else if StartsWith(s, sep) {
      SplitOnPiecesFree(s[|sep|..], sep);
    } else {
      var rest := SplitOn(s[1..], sep);
      SplitOnPiecesFree(s[1..], sep);
      assert s[..1] == [s[0]];
      assert s[0] != sep[0];
      assert sep[0] !in [s[0]] + rest[0];
    }
  }

  /** A string in which the separator's first character never occurs is one piece. */
  lemma {:induction false} SplitOnFree(w: string, sep: string)
    requires |sep| > 0 && sep[0] !in w
    ensures SplitOn(w, sep) == [w]
    decreases |w|
  {
    if |w| > 0 {
      assert w[0] != sep[0];
      assert w[1..] + [] == w[1..];
      assert sep[0] !in w[1..] by {
        forall i | 0 <= i < |w[1..]| ensures w[1..][i] != sep[0] {
          assert w[1..][i] == w[i + 1];
        }
      }
      SplitOnFree(w[1..], sep);
      assert [w[0]] + w[1..] == w;
    }
  }

  /** A string that begins with the separator splits off an empty first piece. */
  lemma SplitOnAtSep(sep: string, b: string)
    requires |sep| > 0
    ensures SplitOn(sep + b, sep) == [""] + SplitOn(b, sep)
  {
    var s := sep + b;
    assert s[..|sep|] == sep;
    assert s[|sep|..] == b;
  }

  /** A string whose first character starts no separator keeps that character in its first piece. */
  lemma SplitOnCons(s: string, sep: string)
    requires |sep| > 0 && |s| > 0 && !StartsWith(s, sep)
    ensures SplitOn(s, sep) == [[s[0]] + SplitOn(s[1..], sep)[0]] + SplitOn(s[1..], sep)[1..]
  {
  }

  /** Dropping the head of a three-part concatenation drops it from the first part. */
  lemma TailOfConcat<T>(x: seq<T>, y: seq<T>, z: seq<T>)
    requires |x| > 0
    ensures (x + y + z)[0] == x[0]
    ensures (x + y + z)[1..] == x[1..] + y + z
  {
    assert (x + y + z)[1..] == x[1..] + y + z;
  }

  /** Dropping the head of a concatenation whose first part is non-empty. */
  lemma TailOfPair<T>(x: seq<T>, y: seq<T>)
    requires |x| > 0
    ensures (x + y)[0] == x[0]
    ensures (x + y)[1..] == x[1..] + y
  {
    assert (x + y)[1..] == x[1..] + y;
  }

  /** The step of `SplitOnAppend` when `a` begins with the one-character separator. */
  lemma SplitOnAppendAtSep(a: string, sep: string, b: string)
    requires |sep| == 1 && |a| > 0 && a[0] == sep[0]
    requires SplitOn(a[1..] + sep + b, sep) == SplitOn(a[1..], sep) + SplitOn(b, sep)
    ensures SplitOn(a + sep + b, sep) == SplitOn(a, sep) + SplitOn(b, sep)
  {
    var t := a[1..];
    HeadIsSep(a, sep, b);
    SplitOnAtSep(sep, t + sep + b);
    SplitOnAtSep(sep, t);
    ConsAssoc("", SplitOn(t, sep), SplitOn(b, sep));
  }

  /** A string that begins with the one-character separator is the separator and its tail. */
  lemma HeadIsSep(a: string, sep: string, b: string)
    requires |sep| == 1 && |a| > 0 && a[0] == sep[0]
    ensures a == sep + a[1..]
    ensures a + sep + b == sep + (a[1..] + sep + b)
  {
    assert a == sep + a[1..];
  }

  lemma ConsAssoc<T>(x: T, ys: seq<T>, zs: seq<T>)
    ensures [x] + (ys + zs) == [x] + ys + zs
  {
  }

  /** The step of `SplitOnAppend` when `a` does not begin with the separator. */
  lemma SplitOnAppendCons(a: string, sep: string, b: string)
    requires |sep| > 0 && |a| > 0
    requires !StartsWith(a + sep + b, sep) && !StartsWith(a, sep)
    requires SplitOn(a[1..] + sep + b, sep) == SplitOn(a[1..], sep) + SplitOn(b, sep)
    ensures SplitOn(a + sep + b, sep) == SplitOn(a, sep) + SplitOn(b, sep)
  {
    TailOfConcat(a, sep, b);
    SplitOnCons(a + sep + b, sep);
    SplitOnCons(a, sep);
    ExtendFirstPiece(a[0], SplitOn(a[1..], sep), SplitOn(b, sep));
  }

  /** Extending the first piece of `ra + rb` extends the first piece of `ra`. */
  lemma ExtendFirstPiece(c: char, ra: seq<string>, rb: seq<string>)
    requires |ra| > 0
    ensures [[c] + (ra + rb)[0]] + (ra + rb)[1..] == [[c] + ra[0]] + ra[1..] + rb
  {
    TailOfPair(ra, rb);
  }

  /**
   * Splitting `a + sep + b` splits `a` and `b` separately, provided no occurrence of
   * `sep` can begin inside `a` and run into the separator (always so for one character).
   */
  lemma {:induction false} SplitOnAppend(a: string, sep: string, b: string)
    requires |sep| > 0
    requires |sep| == 1 || sep[0] !in a
    ensures SplitOn(a + sep + b, sep) == SplitOn(a, sep) + SplitOn(b, sep)
    decreases |a|
  {
    if |a| == 0 {
      assert a + sep + b == sep + b;
      SplitOnAtSep(sep, b);
    } else {
      TailOfConcat(a, sep, b);
      assert |sep| == 1 || sep[0] !in a[1..] by {
        if |sep| != 1 {
          forall i | 0 <= i < |a[1..]| ensures a[1..][i] != sep[0] {
            assert a[1..][i] == a[i + 1];
          }
        }
      }
      SplitOnAppend(a[1..], sep, b);
      if |sep| == 1 && a[0] == sep[0] {
        SplitOnAppendAtSep(a, sep, b);
      } else {
        var s := a + sep + b;
        assert s[..|sep|][0] == s[0] == a[0];
        if |sep| > 1 {
          assert a[0] in a;
        }
        if |sep| <= |a| {
          assert a[..|sep|][0] == a[0];
        }
        SplitOnAppendCons(a, sep, b);
      }
    }
  }

  /** `join` followed by `split` gives the words back when no word holds the separator's first character. */
  lemma {:induction false} SplitJoin(ws: seq<string>, sep: string)
    requires |sep| > 0 && |ws| >= 1
    requires forall i :: 0 <= i < |ws| ==> sep[0] !in ws[i]
    ensures SplitOn(Join(ws, sep), sep) == ws
    decreases |ws|
  {
    if |ws| == 1 {
      SplitOnFree(ws[0], sep);
    } else {
      SplitOnAppend(ws[0], sep, Join(ws[1..], sep));
      SplitOnFree(ws[0], sep);
      SplitJoin(ws[1..], sep);
      assert [ws[0]] + ws[1..] == ws;
    }
  }

  function DigitChar(d: nat): char
    requires d < 10
  {
    ('0' as int + d) as char
  }

  function DigitValue(c: char): nat {
    if '0' <= c <= '9' then c as int - '0' as int else 0
  }

  /** `${n}` for a non-negative integer: its decimal digits, most significant first, no leading zero. */
  function NatToString(n: nat): (r: string)
    ensures |r| >= 1
    ensures forall i :: 0 <= i < |r| ==> '0' <= r[i] <= '9'
    ensures n >= 10 ==> r[0] != '0'
    decreases n
  {
    if n < 10 then [DigitChar(n)] else NatToString(n / 10) + [DigitChar(n % 10)]
  }

  /** Reads decimal digits back into a number. */
  function ParseNat(s: string): nat
    decreases |s|
  {
    if |s| == 0 then 0 else ParseNat(s[..|s| - 1]) * 10 + DigitValue(s[|s| - 1])
  }

  /** Decimal rendering is undone by parsing. */
  lemma {:induction false} ParseNatToString(n: nat)
    ensures ParseNat(NatToString(n)) == n
    decreases n
  {
    var s := NatToString(n);
    if n < 10 {
      assert s[..0] == "";
    } else {
      ParseNatToString(n / 10);
      assert s[..|s| - 1] == NatToString(n / 10);
    }
  }

  /** Distinct numbers are rendered as distinct strings. */
  lemma NatToStringInjective(m: nat, n: nat)
    requires m != n
    ensures NatToString(m) != NatToString(n)
  {
    ParseNatToString(m);
    ParseNatToString(n);
  }

  /** The length of the run of decimal digits at the front of `x`. */
  function DigitRun(x: string): nat
    decreases |x|
  {
    if |x| == 0 || !('0' <= x[0] <= '9') then 0 else 1 + DigitRun(x[1..])
  }

  lemma {:induction false} DigitRunOf(a: string, s: string)
    requires forall i :: 0 <= i < |a| ==> '0' <= a[i] <= '9'
    requires |s| > 0 && !('0' <= s[0] <= '9')
    ensures DigitRun(a + s) == |a|
    decreases |a|
  {
    if |a| > 0 {
      assert (a + s)[1..] == a[1..] + s;
      DigitRunOf(a[1..], s);
    }
  }

  /** Behind a common prefix, a digit string followed by a non-digit is fixed by where the first non-digit stands. */
  lemma DigitsThenText(p: string, a: string, s: string, b: string, t: string)
    requires forall i :: 0 <= i < |a| ==> '0' <= a[i] <= '9'
    requires forall i :: 0 <= i < |b| ==> '0' <= b[i] <= '9'
    requires |s| > 0 && !('0' <= s[0] <= '9')
    requires |t| > 0 && !('0' <= t[0] <= '9')
    requires p + a + s == p + b + t
    ensures a == b && s == t
  {
    assert a + s == (p + a + s)[|p|..];
    assert b + t == (p + b + t)[|p|..];
    DigitRunOf(a, s);
    DigitRunOf(b, t);
    assert a == (a + s)[..|a|];
    assert b == (b + t)[..|b|];
    assert s == (a + s)[|a|..];
    assert t == (b + t)[|b|..];
  }
}
