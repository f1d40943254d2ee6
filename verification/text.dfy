/**
 The PHP string functions the CSV processors rely on: `explode`, its inverse
 `implode`, and `trim` with PHP's default character list.
 */
module Text {

  /** `sep` occurs in `s` starting at position `k`. */
  predicate OccursAt(s: string, sep: string, k: int) {
    0 <= k && k + |sep| <= |s| && s[k..k + |sep|] == sep
  }

  /** `sep` occurs somewhere in `s`. */
  ghost predicate Contains(s: string, sep: string) {
    exists k :: OccursAt(s, sep, k)
  }

  /** PHP `explode(sep, s)`: the pieces of `s` between occurrences of `sep`, scanned from the left. */
  function Split(s: string, sep: string): (parts: seq<string>)
    requires |sep| > 0
    ensures |parts| >= 1
    decreases |s|
  {
    if |s| < |sep| then [s]
    else if s[..|sep|] == sep then [""] + Split(s[|sep|..], sep)
    else
      var rest := Split(s[1..], sep);
      [[s[0]] + rest[0]] + rest[1..]
  }

  /** PHP `implode(sep, parts)`. */
  function Join(parts: seq<string>, sep: string): string
    requires |parts| >= 1
    decreases |parts|
  {
    if |parts| == 1 then parts[0] else parts[0] + sep + Join(parts[1..], sep)
  }

  /** Re-joining the pieces with the separator gives back the original string. */
  lemma {:induction false} JoinSplit(s: string, sep: string)
    requires |sep| > 0
    ensures Join(Split(s, sep), sep) == s
    decreases |s|
  {
    if |s| < |sep| {
      assert Split(s, sep) == [s];
    } else if s[..|sep|] == sep {
      var rest := Split(s[|sep|..], sep);
      var parts := [""] + rest;
      assert Split(s, sep) == parts;
      assert parts[1..] == rest;
      JoinSplit(s[|sep|..], sep);
      assert Join(parts, sep) == "" + sep + Join(rest, sep);
      assert s == sep + s[|sep|..];
    } else {
      var rest := Split(s[1..], sep);
      assert Split(s, sep) == [[s[0]] + rest[0]] + rest[1..];
      JoinSplit(s[1..], sep);
      JoinCons(s[0], rest, sep);
      assert s == [s[0]] + s[1..];
    }
  }

  /** Prefixing a character to the first piece prefixes it to the joined string. */
  lemma JoinCons(c: char, parts: seq<string>, sep: string)
    requires |parts| >= 1
    ensures Join([[c] + parts[0]] + parts[1..], sep) == [c] + Join(parts, sep)
  {
    var parts' := [[c] + parts[0]] + parts[1..];
    if |parts| > 1 {
      assert parts'[1..] == parts[1..];
    }
  }

  /** The first piece is a prefix of the string and, when it is not the only one, is followed by `sep`. */
  lemma {:induction false} SplitHead(s: string, sep: string)
    requires |sep| > 0
    ensures |Split(s, sep)[0]| <= |s|
    ensures s[..|Split(s, sep)[0]|] == Split(s, sep)[0]
    ensures |Split(s, sep)| > 1 ==> OccursAt(s, sep, |Split(s, sep)[0]|)
    decreases |s|
  {
    if |s| < |sep| {
      assert Split(s, sep) == [s];
    } else if s[..|sep|] == sep {
      var rest := Split(s[|sep|..], sep);
      assert Split(s, sep) == [""] + rest;
    } else {
      var rest := Split(s[1..], sep);
      var h := rest[0];
      assert Split(s, sep) == [[s[0]] + h] + rest[1..];
      SplitHead(s[1..], sep);
      assert s[..1 + |h|] == [s[0]] + h by {
        assert s[..1 + |h|] == [s[0]] + s[1..][..|h|];
      }
      if |rest| > 1 {
        assert OccursAt(s, sep, 1 + |h|) by {
          assert s[1 + |h|..1 + |h| + |sep|] == s[1..][|h|..|h| + |sep|];
        }
      }
    }
  }

  /** No piece of `explode` contains the separator. */
  lemma {:induction false} SplitPiecesFree(s: string, sep: string)
    requires |sep| > 0
    ensures forall i :: 0 <= i < |Split(s, sep)| ==> !Contains(Split(s, sep)[i], sep)
    decreases |s|
  {
    var parts := Split(s, sep);
    if |s| < |sep| {
      assert !Contains(s, sep);
    } else if s[..|sep|] == sep {
      SplitPiecesFree(s[|sep|..], sep);
      forall i | 0 <= i < |parts|
        ensures !Contains(parts[i], sep)
      {
        if i > 0 {
          assert parts[i] == Split(s[|sep|..], sep)[i - 1];
        }
      }
    } else {
      var rest := Split(s[1..], sep);
      assert parts == [[s[0]] + rest[0]] + rest[1..];
      SplitPiecesFree(s[1..], sep);
      var h := rest[0];
      assert 1 + |h| <= |s| && [s[0]] + h == s[..1 + |h|] by {
        SplitHead(s[1..], sep);
        assert s[..1 + |h|] == [s[0]] + s[1..][..|h|];
      }
      ConsFree(s[0], h, s, sep);
      forall i | 0 <= i < |parts|
        ensures !Contains(parts[i], sep)
      {
        if i > 0 {
          assert parts[i] == rest[i];
        }
      }
    }
  }

  /**
   A character followed by a `sep`-free string is `sep`-free, when together
   they are a prefix of a string that does not start with `sep`.
   */
  lemma ConsFree(c: char, h: string, s: string, sep: string)
    requires |sep| > 0 && |s| >= |sep| && s[..|sep|] != sep
    requires !Contains(h, sep)
    requires 1 + |h| <= |s| && [c] + h == s[..1 + |h|]
    ensures !Contains([c] + h, sep)
  {
    var head := [c] + h;
    forall k
      ensures !OccursAt(head, sep, k)
    {
      if k == 0 && |sep| <= |head| {
        assert head[..|sep|] == s[..|sep|];
      } else if 0 < k && k + |sep| <= |head| {
        assert head[k..k + |sep|] == h[k - 1..k - 1 + |sep|];
        assert !OccursAt(h, sep, k - 1);
      }
    }
  }

  /** A slice of a `sep`-free string is `sep`-free. */
  lemma SliceFree(h: string, sep: string, a: int, b: int)
    requires 0 <= a <= b <= |h|
    requires !Contains(h, sep)
    ensures !Contains(h[a..b], sep)
  {
    forall k | OccursAt(h[a..b], sep, k)
      ensures OccursAt(h, sep, a + k)
    {
      var w := h[a..b][k..k + |sep|];
      assert forall m :: 0 <= m < |sep| ==> w[m] == h[a + k + m];
      assert w == h[a + k..a + k + |sep|];
    }
  }

  /** The characters PHP's `trim` removes by default: space, tab, newline, carriage return, NUL and vertical tab. */
  predicate IsBlank(c: char) {
    c == ' ' || c == '\t' || c == '\n' || c == '\r' || c == '\0' || c == '\U{000B}'
  }

  /** The index of the first non-blank character at or after `i`, or `|s|`. */
  function SkipBlanks(s: string, i: nat): (j: nat)
    requires i <= |s|
    ensures i <= j <= |s|
    ensures forall k :: i <= k < j ==> IsBlank(s[k])
    ensures j < |s| ==> !IsBlank(s[j])
    decreases |s| - i
  {
    if i < |s| && IsBlank(s[i]) then SkipBlanks(s, i + 1) else i
  }

  /** The end of `s[lo..hi]` once its trailing blank characters are dropped. */
  function DropBlanks(s: string, lo: nat, hi: nat): (j: nat)
    requires lo <= hi <= |s|
    ensures lo <= j <= hi
    ensures forall k :: j <= k < hi ==> IsBlank(s[k])
    ensures j > lo ==> !IsBlank(s[j - 1])
    decreases hi - lo
  {
    if hi > lo && IsBlank(s[hi - 1]) then DropBlanks(s, lo, hi - 1) else hi
  }

  /** `r` is the slice of `s` starting at `a`, with only blank characters around it. */
  ghost predicate Trims(s: string, r: string, a: int) {
    && 0 <= a && a + |r| <= |s| && r == s[a..a + |r|]
    && (forall i :: 0 <= i < a ==> IsBlank(s[i]))
    && (forall i :: a + |r| <= i < |s| ==> IsBlank(s[i]))
  }

  /** PHP `trim(s)`: `s` without its leading and trailing blank characters. */
  function Trim(s: string): (r: string)
    ensures exists a :: Trims(s, r, a)
    ensures |r| > 0 ==> !IsBlank(r[0]) && !IsBlank(r[|r| - 1])
  {
    var a := SkipBlanks(s, 0);
    var b := DropBlanks(s, a, |s|);
    var r := s[a..b];
    assert Trims(s, r, a);
    r
  }

  /** A string that neither starts nor ends with a blank is its own trim. */
  lemma TrimUnchanged(s: string)
    requires |s| > 0 ==> !IsBlank(s[0]) && !IsBlank(s[|s| - 1])
    ensures Trim(s) == s
  {
    assert SkipBlanks(s, 0) == 0;
    assert DropBlanks(s, 0, |s|) == |s|;
    assert s[0..|s|] == s;
  }

  /** Trimming twice is the same as trimming once. */
  lemma TrimIdempotent(s: string)
    ensures Trim(Trim(s)) == Trim(s)
  {
    TrimUnchanged(Trim(s));
  }

  /** `explode("\n", "A\nB")` is `["A", "B"]`. */
  lemma SplitTwoLines()
    ensures Split("A\nB", "\n") == ["A", "B"]
  {
    var b := "B";
    assert b[..1] != "\n" by { assert b[..1][0] != "\n"[0]; }
    var tail := Split(b[1..], "\n");
    assert tail == [""] && tail[1..] == [];
    assert [b[0]] + tail[0] == "B";
    assert Split(b, "\n") == ["B"];
    var nb := "\nB";
    assert nb[..1] == "\n" && nb[1..] == b;
    var mid := Split(nb, "\n");
    assert mid == ["", "B"] && mid[1..] == ["B"];
    var s := "A\nB";
    assert s[..1] != "\n" by { assert s[..1][0] != "\n"[0]; }
    assert s[1..] == nb;
    assert [s[0]] + mid[0] == "A";
  }
}
