/** `SourcePosition`: a (line, column) position, ordered by line first and column second. */
module SourcePositions {

  datatype SourcePosition = SourcePosition(line: int, column: int)

  /** Lexicographic "strictly before", the order the comparison is meant to implement. */
  predicate Before(a: SourcePosition, b: SourcePosition) {
    a.line < b.line || (a.line == b.line && a.column < b.column)
  }

  /** `compareTo`: the line difference when the lines differ, otherwise the column difference. */
  function CompareTo(a: SourcePosition, b: SourcePosition): (r: int)
    ensures a.line != b.line ==> r == a.line - b.line
    ensures a.line == b.line ==> r == a.column - b.column
    ensures r == 0 <==> a == b
    ensures r < 0 <==> Before(a, b)
    ensures r > 0 <==> Before(b, a)
  {
    var lineDiff := a.line - b.line;
    if lineDiff != 0 then lineDiff else a.column - b.column
  }

  function Sign(x: int): int {
    if x < 0 then -1 else if x == 0 then 0 else 1
  }

  /** Swapping the operands flips the sign of the comparison. */
  lemma CompareToAntisymmetric(a: SourcePosition, b: SourcePosition)
    ensures Sign(CompareTo(a, b)) == -Sign(CompareTo(b, a))
  {
  }

  /** The order is transitive, for the strict and for the non-strict comparison. */
  lemma CompareToTransitive(a: SourcePosition, b: SourcePosition, c: SourcePosition)
    ensures CompareTo(a, b) < 0 && CompareTo(b, c) < 0 ==> CompareTo(a, c) < 0
    ensures CompareTo(a, b) <= 0 && CompareTo(b, c) <= 0 ==> CompareTo(a, c) <= 0
  {
  }

  /** Any two positions are comparable: exactly one of before, equal, after holds. */
  lemma CompareToTotal(a: SourcePosition, b: SourcePosition)
    ensures Before(a, b) || a == b || Before(b, a)
    ensures !(Before(a, b) && Before(b, a))
  {
  }
}
