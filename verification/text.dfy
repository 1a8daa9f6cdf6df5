/** The string operations the scripts rely on: lower-casing, substring
    containment (`sub in s`) and splitting on a separator (`s.split(sep)`). */
module Text {

  predicate IsUpper(c: char)
  {
    'A' <= c <= 'Z'
  }

  /** `c` and `d` are the same character up to ASCII case. */
  predicate SameUpToCase(c: char, d: char)
  {
    || c == d
    || (IsUpper(c) && d as int == c as int + 32)
    || (IsUpper(d) && c as int == d as int + 32)
  }

  function LowerChar(c: char): char
  {
    if IsUpper(c) then (c as int + 32) as char else c
  }

  /** `s.lower()`, restricted to the ASCII letters: no upper-case letter is
      left, and every character is the original one up to case. */
  function Lower(s: string): (t: string)
    ensures |t| == |s|
    ensures forall i :: 0 <= i < |t| ==> !IsUpper(t[i]) && SameUpToCase(s[i], t[i])
  {
    seq(|s|, i requires 0 <= i < |s| => LowerChar(s[i]))
  }

  /** Lower-casing twice is lower-casing once. */
  lemma LowerIdempotent(s: string)
    ensures Lower(Lower(s)) == Lower(s)
  {
    var t := Lower(s);
    assert forall i :: 0 <= i < |t| ==> Lower(t)[i] == t[i];
  }

  /** Two strings lower-case to the same string exactly when they have the
      same length and agree position by position up to ASCII case. */
  lemma LowerEqual(a: string, b: string)
    ensures Lower(a) == Lower(b) <==>
      |a| == |b| && forall i :: 0 <= i < |a| ==> SameUpToCase(a[i], b[i])
  {
    if |a| == |b| && forall i :: 0 <= i < |a| ==> SameUpToCase(a[i], b[i]) {
      assert forall i :: 0 <= i < |a| ==> Lower(a)[i] == Lower(b)[i];
    }
    if Lower(a) == Lower(b) {
      assert forall i :: 0 <= i < |a| ==> Lower(a)[i] == Lower(b)[i];
    }
  }

  /** `sub` occurs in `s` starting at position `i`. */
  predicate OccursAt(s: string, sub: string, i: nat)
  {
    i + |sub| <= |s| && s[i..i + |sub|] == sub
  }

  /** Python's `sub in s` on strings. */
  predicate Contains(s: string, sub: string)
  {
    exists i :: 0 <= i <= |s| && OccursAt(s, sub, i)
  }

  /** `word.lower() in s.lower()`. */
  predicate ContainsIgnoringCase(s: string, word: string)
  {
    Contains(Lower(s), Lower(word))
  }

  /** A substring of a substring is a substring. */
  lemma ContainsTransitive(a: string, b: string, c: string)
    requires Contains(a, b) && Contains(b, c)
    ensures Contains(a, c)
  {
    var i :| 0 <= i <= |a| && OccursAt(a, b, i);
    var j :| 0 <= j <= |b| && OccursAt(b, c, j);
    forall k | 0 <= k < |c|
      ensures a[i + j + k] == c[k]
    {
      assert c[k] == b[j + k];
      assert b[j + k] == a[i + j + k];
    }
    assert a[i + j..i + j + |c|] == c;
    assert OccursAt(a, c, i + j);
  }

  /** Python's `s.split(sep)` for a non-empty separator, carrying the piece
      collected so far: the string is scanned left to right and cut at every
      occurrence of `sep` that does not overlap an earlier cut. */
  function SplitFrom(s: string, sep: string, piece: string): (r: seq<string>)
    requires |sep| > 0
    ensures |r| > 0
    decreases |s|
  {
    if |s| == 0 then [piece]
    else if sep <= s then [piece] + SplitFrom(s[|sep|..], sep, "")
    else SplitFrom(s[1..], sep, piece + [s[0]])
  }

  function Split(s: string, sep: string): (r: seq<string>)
    requires |sep| > 0
  {
    SplitFrom(s, sep, "")
  }

  /** `sep.join(pieces)`. */
  function Join(pieces: seq<string>, sep: string): string
    requires |pieces| > 0
  {
    if |pieces| == 1 then pieces[0] else pieces[0] + sep + Join(pieces[1..], sep)
  }

  lemma {:induction false} SplitFromJoin(s: string, sep: string, piece: string)
    requires |sep| > 0
    ensures Join(SplitFrom(s, sep, piece), sep) == piece + s
    decreases |s|
  {
    if |s| == 0 {
    } else if sep <= s {
      SplitFromJoin(s[|sep|..], sep, "");
      assert s == sep + s[|sep|..];
    } else {
      SplitFromJoin(s[1..], sep, piece + [s[0]]);
      assert s == [s[0]] + s[1..];
    }
  }

  /** Splitting loses nothing: joining the pieces back gives the original. */
  lemma SplitJoinRoundTrip(s: string, sep: string)
    requires |sep| > 0
    ensures Join(Split(s, sep), sep) == s
  {
    SplitFromJoin(s, sep, "");
  }

  lemma {:induction false} SplitFromFirstPiece(s: string, sep: string, piece: string)
    requires |sep| > 0
    ensures piece <= SplitFrom(s, sep, piece)[0]
    decreases |s|
  {
    if |s| > 0 && !(sep <= s) {
      SplitFromFirstPiece(s[1..], sep, piece + [s[0]]);
    }
  }

  /** `s.split(sep)` is `['']` exactly when `s` is empty. */
  lemma SplitSingleEmpty(s: string, sep: string)
    requires |sep| > 0
    ensures Split(s, sep) == [""] <==> s == ""
  {
    if |s| > 0 {
      if sep <= s {
        assert |Split(s, sep)| > 1;
      } else {
        assert "" + [s[0]] == [s[0]];
        assert Split(s, sep) == SplitFrom(s[1..], sep, [s[0]]);
        SplitFromFirstPiece(s[1..], sep, [s[0]]);
        assert Split(s, sep)[0] != "";
      }
    }
  }
}
