/** The two string operations the leaf extractor depends on: Rust's `str::trim`,
    which decides whether a text node is blank, and `[String]::join`, which turns
    the open-tag stack into a leaf's path. */
module Text {

  /** Rust's `char::is_whitespace`: the Unicode White_Space property. */
  predicate IsWhitespace(c: char) {
    var n := c as int;
    || (0x09 <= n <= 0x0D) || n == 0x20 || n == 0x85 || n == 0xA0 || n == 0x1680
    || (0x2000 <= n <= 0x200A) || n == 0x2028 || n == 0x2029 || n == 0x202F
    || n == 0x205F || n == 0x3000
  }

  /** A string made of whitespace only (the empty string included). */
  predicate IsBlank(s: string) {
    forall i :: 0 <= i < |s| ==> IsWhitespace(s[i])
  }

  /** `str::trim_start`: the longest suffix that does not start with whitespace. */
  function TrimStart(s: string): (r: string)
    ensures |r| <= |s| && r == s[|s| - |r|..]
    ensures IsBlank(s[..|s| - |r|])
    ensures r == [] || !IsWhitespace(r[0])
  {
    if |s| > 0 && IsWhitespace(s[0]) then
      var r := TrimStart(s[1..]);
      assert s[..|s| - |r|] == [s[0]] + s[1..][..|s| - 1 - |r|];
      r
    else s
  }

  /** `str::trim_end`: the longest prefix that does not end with whitespace. */
  function TrimEnd(s: string): (r: string)
    ensures |r| <= |s| && r == s[..|r|]
    ensures IsBlank(s[|r|..])
    ensures r == [] || !IsWhitespace(r[|r| - 1])
  {
    if |s| > 0 && IsWhitespace(s[|s| - 1]) then
      var r := TrimEnd(s[..|s| - 1]);
      assert s[|r|..] == s[..|s| - 1][|r|..] + [s[|s| - 1]];
      r
    else s
  }

  /** `str::trim`: nothing is left exactly when the string is blank, and what is
      left neither starts nor ends with whitespace. */
  function Trim(s: string): (r: string)
    ensures |r| <= |s|
    ensures r == [] <==> IsBlank(s)
    ensures r == [] || (!IsWhitespace(r[0]) && !IsWhitespace(r[|r| - 1]))
  {
    TrimEmptyIffBlank(s);
    var t := TrimStart(s);
    var r := TrimEnd(t);
    assert r == [] || r[0] == t[0];
    r
  }

  /** Trimming both ends leaves nothing exactly when every character is
      whitespace: the blank prefix `trim_start` drops and the blank rest
      `trim_end` drops together make up the whole string. */
  lemma TrimEmptyIffBlank(s: string)
    ensures TrimEnd(TrimStart(s)) == [] <==> IsBlank(s)
  {
    var t := TrimStart(s);
    var p := |s| - |t|;
    assert t == s[p..];
    if TrimEnd(t) == [] {
      assert t[0..] == t;
      forall i | 0 <= i < |s|
        ensures IsWhitespace(s[i])
      {
        if i < p {
          assert s[..p][i] == s[i];
        } else {
          assert t[i - p] == s[i];
        }
      }
    } else {
      assert TrimEnd(t)[0] == s[p];
    }
  }

  /** `[String]::join(sep)`: the parts in order, `sep` between neighbours. */
  function Join(parts: seq<string>, sep: char): string
  {
    if |parts| == 0 then []
    else if |parts| == 1 then parts[0]
    else Join(parts[..|parts| - 1], sep) + [sep] + parts[|parts| - 1]
  }

  /** The position of the last `c` in `s`. */
  function LastIndexOf(s: string, c: char): (i: nat)
    requires c in s
    ensures i < |s| && s[i] == c
    ensures forall j :: i < j < |s| ==> s[j] != c
  {
    if s[|s| - 1] == c then |s| - 1 else LastIndexOf(s[..|s| - 1], c)
  }

  /** `str::split(sep)`: the pieces between separators; never empty. */
  function Split(s: string, sep: char): (r: seq<string>)
    ensures |r| >= 1
    ensures forall k :: 0 <= k < |r| ==> sep !in r[k]
    decreases |s|
  {
    if sep !in s then [s]
    else
      var i := LastIndexOf(s, sep);
      Split(s[..i], sep) + [s[i + 1..]]
  }

  /** Splitting a join at the separator gives the parts back, provided no part
      contains the separator. */
  lemma {:induction false} SplitJoin(parts: seq<string>, sep: char)
    requires |parts| >= 1
    requires forall k :: 0 <= k < |parts| ==> sep !in parts[k]
    ensures Split(Join(parts, sep), sep) == parts
  {
    if |parts| > 1 {
      var init, last := parts[..|parts| - 1], parts[|parts| - 1];
      var j := Join(init, sep);
      var s := j + [sep] + last;
      assert Join(parts, sep) == s;
      assert s[|j|] == sep;
      var i := LastIndexOf(s, sep);
      assert i == |j|;
      assert s[..i] == j;
      assert s[i + 1..] == last;
      SplitJoin(init, sep);
      assert init + [last] == parts;
    }
  }

  /** Ancestor chains of non-empty, separator-free names are told apart by their
      joined path: equal paths mean equal chains. */
  lemma PathDeterminesAncestors(p1: seq<string>, p2: seq<string>, sep: char)
    requires forall k :: 0 <= k < |p1| ==> p1[k] != [] && sep !in p1[k]
    requires forall k :: 0 <= k < |p2| ==> p2[k] != [] && sep !in p2[k]
    requires Join(p1, sep) == Join(p2, sep)
    ensures p1 == p2
  {
    if |p1| == 0 || |p2| == 0 {
      JoinOfNonEmptyNames(p1, sep);
      JoinOfNonEmptyNames(p2, sep);
    } else {
      SplitJoin(p1, sep);
      SplitJoin(p2, sep);
    }
  }

  /** A join is empty exactly when there is nothing to join, once every name is
      non-empty. */
  lemma JoinOfNonEmptyNames(parts: seq<string>, sep: char)
    requires forall k :: 0 <= k < |parts| ==> parts[k] != []
    ensures Join(parts, sep) == [] <==> |parts| == 0
  {
  }
}
