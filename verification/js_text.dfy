/**
 * The JavaScript string operations the client components rely on, with their
 * JavaScript meaning: the `\s` class of regular expressions, `length` in
 * UTF-16 code units, `startsWith`, `indexOf`/`includes` and `split` on a
 * separator string.
 */
module JsText {

  /** A character the `\s` class of a JavaScript regular expression matches. */
  predicate IsJsSpace(c: char)
  {
    || c == '\t' || c == '\n' || c == '\U{B}' || c == '\U{C}' || c == '\r' || c == ' '
    || c == '\U{A0}' || c == '\U{1680}' || ('\U{2000}' <= c <= '\U{200A}')
    || c == '\U{2028}' || c == '\U{2029}' || c == '\U{202F}' || c == '\U{205F}'
    || c == '\U{3000}' || c == '\U{FEFF}'
  }

  /** `s.length`: characters outside the Basic Multilingual Plane count twice. */
  function Utf16Length(s: string): (n: nat)
    ensures |s| <= n <= 2 * |s|
    decreases |s|
  {
    if s == [] then 0 else (if s[0] as int < 0x1_0000 then 1 else 2) + Utf16Length(s[1..])
  }

  /** Text made of Basic Multilingual Plane characters has one code unit per character. */
  lemma {:induction false} Utf16LengthOfBmp(s: string)
    requires forall i | 0 <= i < |s| :: s[i] as int < 0x1_0000
    ensures Utf16Length(s) == |s|
    decreases |s|
  {
    if s != [] {
      assert forall i | 0 <= i < |s| - 1 :: s[1..][i] == s[i + 1];
      Utf16LengthOfBmp(s[1..]);
    }
  }

  /** `s.startsWith(p)`. */
  predicate StartsWith(s: string, p: string)
  {
    |p| <= |s| && s[..|p|] == p
  }

  /** `sep` occurs in `s` at index `i`. */
  ghost predicate OccursAt(s: string, sep: string, i: int)
  {
    0 <= i && i + |sep| <= |s| && s[i..i + |sep|] == sep
  }

  /** `i` is the first index at which `sep` occurs in `s`. */
  ghost predicate FirstAt(s: string, sep: string, i: int)
  {
    OccursAt(s, sep, i) && forall j | 0 <= j < i :: !OccursAt(s, sep, j)
  }

  /** `r` is the text of `tail` before the first `sep`, or all of `tail` when it has none. */
  ghost predicate BeforeFirst(tail: string, sep: string, r: string)
  {
    && |r| <= |tail| && r == tail[..|r|]
    && if |r| == |tail| then forall j :: !OccursAt(tail, sep, j) else FirstAt(tail, sep, |r|)
  }

  lemma OccursAtTail(s: string, sep: string, j: int)
    requires |s| > 0 && j >= 0
    ensures OccursAt(s[1..], sep, j) <==> OccursAt(s, sep, j + 1)
  {
    if 0 <= j && j + |sep| <= |s| - 1 {
      assert s[1..][j..j + |sep|] == s[j + 1..j + 1 + |sep|];
    }
  }

  /** `s.indexOf(sep)`: the first index of `sep` in `s`, or -1 when it does not occur. */
  function IndexOf(s: string, sep: string): (r: int)
    ensures r == -1 || FirstAt(s, sep, r)
    ensures r == -1 <==> forall j :: !OccursAt(s, sep, j)
    decreases |s|
  {
    if |s| < |sep| then -1
    else if s[..|sep|] == sep then 0
    else
      assert !OccursAt(s, sep, 0) by {
        assert s[0..|sep|] == s[..|sep|];
      }
      var r := IndexOf(s[1..], sep);
      assert forall j | j >= 1 :: OccursAt(s, sep, j) <==> OccursAt(s[1..], sep, j - 1) by {
        forall j | j >= 1
          ensures OccursAt(s, sep, j) <==> OccursAt(s[1..], sep, j - 1)
        {
          OccursAtTail(s, sep, j - 1);
        }
      }
      if r < 0 then -1 else r + 1
  }

  /** `s.includes(sep)`. */
  predicate Includes(s: string, sep: string)
  {
    IndexOf(s, sep) >= 0
  }

  /** `s.split(sep)` for a non-empty separator: the texts between successive occurrences. */
  function Split(s: string, sep: string): (parts: seq<string>)
    requires |sep| > 0
    ensures |parts| >= 1
    decreases |s|
  {
    var i := IndexOf(s, sep);
    if i < 0 then [s] else [s[..i]] + Split(s[i + |sep|..], sep)
  }

  lemma SplitUnfold(s: string, sep: string)
    requires |sep| > 0 && IndexOf(s, sep) >= 0
    ensures Split(s, sep) == [s[..IndexOf(s, sep)]] + Split(s[IndexOf(s, sep) + |sep|..], sep)
  {
  }

  /** `parts.join(sep)`. */
  function Join(parts: seq<string>, sep: string): string
    requires |parts| >= 1
    decreases |parts|
  {
    if |parts| == 1 then parts[0] else parts[0] + sep + Join(parts[1..], sep)
  }

  lemma JoinCons(p: string, ps: seq<string>, sep: string)
    requires |ps| >= 1
    ensures Join([p] + ps, sep) == p + sep + Join(ps, sep)
  {
    assert ([p] + ps)[1..] == ps;
  }

  lemma ThreeParts(s: string, i: nat, n: nat)
    requires i + n <= |s|
    ensures s == s[..i] + s[i..i + n] + s[i + n..]
  {
  }

  /** Joining the parts of a split with the separator gives back the text. */
  lemma {:induction false} JoinSplit(s: string, sep: string)
    requires |sep| > 0
    ensures Join(Split(s, sep), sep) == s
    decreases |s|
  {
    var i := IndexOf(s, sep);
    if i >= 0 {
      var rest := s[i + |sep|..];
      JoinSplit(rest, sep);
      SplitUnfold(s, sep);
      JoinCons(s[..i], Split(rest, sep), sep);
      ThreeParts(s, i, |sep|);
    }
  }

  /** No part of a split contains the separator. */
  lemma {:induction false} SplitPartsFree(s: string, sep: string)
    requires |sep| > 0
    ensures forall k, j | 0 <= k < |Split(s, sep)| :: !OccursAt(Split(s, sep)[k], sep, j)
    decreases |s|
  {
    var i := IndexOf(s, sep);
    if i >= 0 {
      var rest := s[i + |sep|..];
      SplitPartsFree(rest, sep);
      forall j
        ensures !OccursAt(s[..i], sep, j)
      {
        if OccursAt(s[..i], sep, j) {
          assert s[..i][j..j + |sep|] == s[j..j + |sep|];
          assert OccursAt(s, sep, j);
        }
      }
      SplitUnfold(s, sep);
    }
  }

  /** The first part of a split is the text before the first separator. */
  lemma SplitFirst(s: string, sep: string)
    requires |sep| > 0
    ensures BeforeFirst(s, sep, Split(s, sep)[0])
  {
    var k := IndexOf(s, sep);
    if k >= 0 {
      SplitUnfold(s, sep);
      assert Split(s, sep)[0] == s[..k];
    }
  }

  /** The first occurrence is the one `indexOf` finds. */
  lemma IndexOfFirst(s: string, sep: string, i: int)
    requires FirstAt(s, sep, i)
    ensures IndexOf(s, sep) == i
  {
  }

  lemma SplitSecondAtIndex(s: string, sep: string)
    requires |sep| > 0 && IndexOf(s, sep) >= 0
    ensures |Split(s, sep)| >= 2
    ensures BeforeFirst(s[IndexOf(s, sep) + |sep|..], sep, Split(s, sep)[1])
  {
    SplitUnfold(s, sep);
    SplitFirst(s[IndexOf(s, sep) + |sep|..], sep);
  }

  /** The second part of a split is the text after the first separator up to the next one. */
  lemma SplitSecond(s: string, sep: string, i: int)
    requires |sep| > 0 && FirstAt(s, sep, i)
    ensures |Split(s, sep)| >= 2
    ensures BeforeFirst(s[i + |sep|..], sep, Split(s, sep)[1])
  {
    IndexOfFirst(s, sep, i);
    SplitSecondAtIndex(s, sep);
  }
}
