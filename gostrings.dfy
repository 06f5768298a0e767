/**
 * The few functions of Go's `strings` package the engine calls, on byte
 * strings: `LastIndex` and `Index` for a one-byte separator, `SplitN(s, " ", 2)`,
 * `HasPrefix` and `TrimSpace`.
 */
module GoStrings {
  /** `strings.LastIndex(s, string(c))`: the position of the last `c`, or -1 when there is none. */
  function LastIndex(s: string, c: char): (k: int)
    ensures -1 <= k < |s|
    ensures k >= 0 ==> s[k] == c
    ensures forall j :: k < j < |s| ==> s[j] != c
  {
    if s == [] then -1
    else if s[|s| - 1] == c then |s| - 1
    else LastIndex(s[..|s| - 1], c)
  }

  /** `strings.Index(s, string(c))`: the position of the first `c`, or -1 when there is none. */
  function Index(s: string, c: char): (k: int)
    ensures -1 <= k < |s|
    ensures k >= 0 ==> s[k] == c
    ensures forall j :: 0 <= j < |s| && (k < 0 || j < k) ==> s[j] != c
  {
    if s == [] then -1
    else if s[0] == c then 0
    else
      var k := Index(s[1..], c);
      if k < 0 then -1 else k + 1
  }

  /** A position holding `c` with no `c` after it is what `LastIndex` finds. */
  lemma LastIndexAt(s: string, c: char, k: int)
    requires 0 <= k < |s| && s[k] == c
    requires forall j :: k < j < |s| ==> s[j] != c
    ensures LastIndex(s, c) == k
  {
  }

  /** A `c` followed by text that holds no `c` is the last `c`. */
  lemma LastIndexBeforeSuffix(s: string, c: char, k: int)
    requires 0 <= k < |s| && s[k] == c && c !in s[k + 1..]
    ensures LastIndex(s, c) == k
  {
    LastIndexAt(s, c, k);
  }

  /**
   * `strings.SplitN(s, " ", 2)`: the text before the first space and the text
   * after it, or `s` alone when it has no space.
   */
  function SplitFirstSpace(s: string): (parts: seq<string>)
    ensures 1 <= |parts| <= 2
    ensures ' ' !in parts[0]
    ensures |parts| == 1 <==> ' ' !in s
    ensures |parts| == 1 ==> parts[0] == s
    ensures |parts| == 2 ==> s == parts[0] + " " + parts[1]
  {
    var k := Index(s, ' ');
    if k < 0 then [s] else [s[..k], s[k + 1..]]
  }

  /** `strings.HasPrefix`. */
  function HasPrefix(s: string, prefix: string): (b: bool)
    ensures b <==> |prefix| <= |s| && forall i :: 0 <= i < |prefix| ==> s[i] == prefix[i]
  {
    |prefix| <= |s| && s[..|prefix|] == prefix
  }

  /** The white space `strings.TrimSpace` removes, restricted to ASCII: tab, LF, VT, FF, CR and space. */
  predicate IsSpace(c: char) {
    c == ' ' || 9 <= c as int <= 13
  }

  predicate NoSpace(s: string) {
    forall i :: 0 <= i < |s| ==> !IsSpace(s[i])
  }

  /** `s` without its leading white space. */
  function TrimLeft(s: string): (r: string)
    ensures |r| <= |s| && r == s[|s| - |r|..]
    ensures r != [] ==> !IsSpace(r[0])
    ensures forall i :: 0 <= i < |s| - |r| ==> IsSpace(s[i])
  {
    if s != [] && IsSpace(s[0]) then TrimLeft(s[1..]) else s
  }

  /** `s` without its trailing white space. */
  function TrimRight(s: string): (r: string)
    ensures |r| <= |s| && r == s[..|r|]
    ensures r != [] ==> !IsSpace(r[|r| - 1])
    ensures forall i :: |r| <= i < |s| ==> IsSpace(s[i])
  {
    if s != [] && IsSpace(s[|s| - 1]) then TrimRight(s[..|s| - 1]) else s
  }

  /** `strings.TrimSpace`: `s` without leading and trailing white space. */
  function TrimSpace(s: string): (r: string)
    ensures |r| <= |s|
    ensures r != [] ==> !IsSpace(r[0]) && !IsSpace(r[|r| - 1])
  {
    var l := TrimLeft(s);
    var r := TrimRight(l);
    assert r != [] ==> r[0] == l[0];
    r
  }

  /** How many leading white-space characters `TrimSpace` drops. */
  function TrimOffset(s: string): nat
  {
    |s| - |TrimLeft(s)|
  }

  /** What `TrimSpace` keeps is the text of `s` that starts at `TrimOffset(s)`. */
  lemma TrimSpaceInfix(s: string)
    ensures TrimOffset(s) + |TrimSpace(s)| <= |s|
    ensures s[TrimOffset(s)..TrimOffset(s) + |TrimSpace(s)|] == TrimSpace(s)
  {
    var l := TrimLeft(s);
    var r := TrimRight(l);
    var i := TrimOffset(s);
    assert l == s[i..];
    assert r == l[..|r|];
    assert s[i..i + |r|] == s[i..][..|r|];
  }

  /** What `TrimSpace` removes in front is white space. */
  lemma TrimSpaceDropsLeading(s: string)
    ensures forall j :: 0 <= j < TrimOffset(s) ==> IsSpace(s[j])
  {
  }

  /** What `TrimSpace` removes behind is white space. */
  lemma TrimSpaceDropsTrailing(s: string)
    ensures TrimOffset(s) + |TrimSpace(s)| <= |s|
    ensures forall j :: TrimOffset(s) + |TrimSpace(s)| <= j < |s| ==> IsSpace(s[j])
  {
    var l := TrimLeft(s);
    var r := TrimRight(l);
    var i := |s| - |l|;
    assert l == s[i..];
    forall j | i + |r| <= j < |s|
      ensures IsSpace(s[j])
    {
      assert s[j] == l[j - i];
    }
  }

  /** Non-empty text that neither starts nor ends with white space. */
  predicate Trimmed(s: string) {
    s != [] && !IsSpace(s[0]) && !IsSpace(s[|s| - 1])
  }

  /** Text that neither starts nor ends with white space is left unchanged by `TrimSpace`. */
  lemma TrimSpaceUnchanged(s: string)
    requires Trimmed(s)
    ensures TrimSpace(s) == s
  {
    assert TrimLeft(s) == s;
  }

  /** Text without white space is left unchanged by `TrimSpace`. */
  lemma TrimSpaceNoSpace(s: string)
    requires NoSpace(s)
    ensures TrimSpace(s) == s
  {
    assert TrimLeft(s) == s;
  }
}
