// Small shared vocabulary: optional values, failing results, ascending lists
// and source spans.
module Prelude {
  datatype Option<+T> = None | Some(value: T)

  datatype Result<+T, +E> = Success(value: T) | Failure(error: E)

  function Min(a: int, b: int): int {
    if a <= b then a else b
  }

  function Max(a: int, b: int): int {
    if a <= b then b else a
  }

  predicate Ascending(s: seq<nat>) {
    forall i, j | 0 <= i < j < |s| :: s[i] < s[j]
  }

  // One-based and inclusive at both ends.
  datatype SourceSpan = SourceSpan(startLine: int, startCol: int, endLine: int, endCol: int)

  // `text` stands in `source` at this offset.
  ghost predicate TextAt(source: string, offset: nat, text: string) {
    offset + |text| <= |source| && source[offset..offset + |text|] == text
  }

  lemma SplitTextAt(source: string, offset: nat, a: string, b: string)
    requires TextAt(source, offset, a + b)
    ensures TextAt(source, offset, a) && TextAt(source, offset + |a|, b)
  {
    var whole := source[offset..offset + |a + b|];
    assert source[offset..offset + |a|] == whole[..|a|] == a;
    assert source[offset + |a|..offset + |a| + |b|] == whole[|a|..] == b;
  }

  lemma SubsetSize<T>(a: set<T>, b: set<T>)
    requires a <= b
    ensures |a| <= |b|
  {
    assert b == a + (b - a);
  }
}
