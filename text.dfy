/** PHP's `trim` with its default character list " \t\n\r\0\x0B". */
module Text {

  /** The characters PHP's `trim` strips when no character list is given. */
  predicate IsTrimChar(c: char) {
    c == ' ' || c == '\t' || c == '\n' || c == '\r' || c == '\0' || c == '\U{000B}'
  }

  /** `ltrim`: drops the longest prefix of trim characters. */
  function TrimLeft(s: string): (r: string)
    ensures |r| <= |s| && r == s[|s| - |r|..]
    ensures forall k :: 0 <= k < |s| - |r| ==> IsTrimChar(s[k])
    ensures r == [] || !IsTrimChar(r[0])
    decreases |s|
  {
    if |s| > 0 && IsTrimChar(s[0]) then TrimLeft(s[1..]) else s
  }

  /** `rtrim`: drops the longest suffix of trim characters. */
  function TrimRight(s: string): (r: string)
    ensures |r| <= |s| && r == s[..|r|]
    ensures forall k :: |r| <= k < |s| ==> IsTrimChar(s[k])
    ensures r == [] || !IsTrimChar(r[|r| - 1])
    decreases |s|
  {
    if |s| > 0 && IsTrimChar(s[|s| - 1]) then TrimRight(s[..|s| - 1]) else s
  }

  /** `trim`: the result is a slice of `s` obtained by cutting trim characters
      only, it neither starts nor ends with one, and it is empty exactly when
      `s` consists of trim characters alone. */
  function Trim(s: string): (r: string)
    ensures exists i, j ::
              && 0 <= i <= j <= |s| && r == s[i..j]
              && (forall k :: 0 <= k < i ==> IsTrimChar(s[k]))
              && (forall k :: j <= k < |s| ==> IsTrimChar(s[k]))
    ensures r != [] ==> !IsTrimChar(r[0]) && !IsTrimChar(r[|r| - 1])
    ensures r == [] <==> forall k :: 0 <= k < |s| ==> IsTrimChar(s[k])
  {
    var left := TrimLeft(s);
    var r := TrimRight(left);
    TrimSlice(s, left, r);
    r
  }

  /** The facts behind `Trim`'s contract, from the contracts of
      `left == TrimLeft(s)` and `r == TrimRight(left)`. */
  lemma TrimSlice(s: string, left: string, r: string)
    requires |left| <= |s| && left == s[|s| - |left|..]
    requires forall k :: 0 <= k < |s| - |left| ==> IsTrimChar(s[k])
    requires left == [] || !IsTrimChar(left[0])
    requires |r| <= |left| && r == left[..|r|]
    requires forall k :: |r| <= k < |left| ==> IsTrimChar(left[k])
    requires r == [] || !IsTrimChar(r[|r| - 1])
    ensures exists i, j ::
              && 0 <= i <= j <= |s| && r == s[i..j]
              && (forall k :: 0 <= k < i ==> IsTrimChar(s[k]))
              && (forall k :: j <= k < |s| ==> IsTrimChar(s[k]))
    ensures r != [] ==> !IsTrimChar(r[0]) && !IsTrimChar(r[|r| - 1])
    ensures r == [] <==> forall k :: 0 <= k < |s| ==> IsTrimChar(s[k])
  {
    var i := |s| - |left|;
    var j := i + |r|;
    assert r == s[i..j] by {
      assert forall k :: 0 <= k < |r| ==> r[k] == left[k] == s[i + k];
    }
    assert forall k :: j <= k < |s| ==> s[k] == left[k - i];
    if r != [] {
      assert r[0] == left[0];
    }
    assert left != [] ==> left[0] == s[i];
  }

  /** A string that neither starts nor ends with a trim character is its own
      trim. */
  lemma TrimNoEdges(s: string)
    requires s == [] || (!IsTrimChar(s[0]) && !IsTrimChar(s[|s| - 1]))
    ensures Trim(s) == s
  {
    assert TrimLeft(s) == s;
  }

  /** Trimming twice is trimming once. */
  lemma TrimIdempotent(s: string)
    ensures Trim(Trim(s)) == Trim(s)
  {
    TrimNoEdges(Trim(s));
  }
}
