/**
 * The line validators of the interactive reader: a row is typed as nine
 * characters, each a digit 1..9 or one of the empty markers, checked for its
 * length and for repeated digits, then converted to nine integers.
 */
module Reader {
  import opened Tile
  import opened Groups

  /** The outcome of a check: it passes, or it raises `AssertionError`. */
  datatype Check = Pass | Fail

  /** A converted line, or the `ValueError` raised by `int()` on the
      character at position pos. */
  datatype Conversion = Converted(values: seq<int>) | ValueError(pos: nat)

  /** The characters that mark an empty tile (`empty_char`). */
  const EmptyChars: seq<char> := ['_', '-', ' ', '0']

  /** `check_length`: a row has nine characters. */
  function CheckLength(line: string): Check {
    if |line| != 9 then Fail else Pass
  }

  /** `str.count` of a one-character string: how many positions hold ch. */
  function Count(line: string, ch: char): nat {
    if line == [] then 0
    else Count(line[..|line| - 1], ch) + (if line[|line| - 1] == ch then 1 else 0)
  }

  /** The character `str(n)` for a digit n. */
  function DigitChar(n: int): char
    requires 0 <= n <= 9
  {
    ('0' as int + n) as char
  }

  /** `check_uniqueness`: each digit 1..9 is counted in the line, and the check
      fails unless every count is below 2. */
  function CheckUniqueness(line: string): Check {
    if forall n :: 1 <= n <= 9 ==> Count(line, DigitChar(n)) < 2 then Pass else Fail
  }

  /** ch occurs at two different positions of the line. */
  predicate Repeated(line: string, ch: char) {
    exists a, b :: 0 <= a < b < |line| && line[a] == ch && line[b] == ch
  }

  /** A count of two or more is a character at two positions. */
  lemma {:induction false} CountBelowTwo(line: string, ch: char)
    ensures Count(line, ch) < 2 <==> !Repeated(line, ch)
  {
    if line != [] {
      var n := |line| - 1;
      var front := line[..n];
      CountBelowTwo(front, ch);
      CountZero(front, ch);
      if Repeated(front, ch) {
        var a, b :| 0 <= a < b < n && front[a] == ch && front[b] == ch;
        assert line[a] == ch && line[b] == ch;
      }
      if Repeated(line, ch) && !Repeated(front, ch) {
        var a, b :| 0 <= a < b <= n && line[a] == ch && line[b] == ch;
        assert b == n && front[a] == ch;
      }
      if line[n] == ch && Count(front, ch) != 0 {
        var a :| 0 <= a < n && front[a] == ch;
        assert line[a] == ch && line[n] == ch;
      }
    }
  }

  /** A count of zero is a character that does not occur. */
  lemma {:induction false} CountZero(line: string, ch: char)
    ensures Count(line, ch) == 0 <==> forall a :: 0 <= a < |line| ==> line[a] != ch
  {
    if line != [] {
      var n := |line| - 1;
      CountZero(line[..n], ch);
      assert forall a :: 0 <= a < n ==> line[..n][a] == line[a];
    }
  }

  /** The uniqueness check passes exactly when no digit 1..9 is typed twice. */
  lemma UniquenessIsNoRepeatedDigit(line: string)
    ensures CheckUniqueness(line) == Pass <==>
      forall n :: 1 <= n <= 9 ==> !Repeated(line, DigitChar(n))
  {
    forall n | 1 <= n <= 9 ensures Count(line, DigitChar(n)) < 2 <==> !Repeated(line, DigitChar(n)) {
      CountBelowTwo(line, DigitChar(n));
    }
  }

  /** Python's `int()` on a one-character string of the digits '0'..'9'; any
      other character raises `ValueError`. */
  function IntOfChar(ch: char): (n: Option<int>)
    ensures n.Some? <==> '0' <= ch <= '9'
    ensures n.Some? ==> 0 <= n.value <= 9 && DigitChar(n.value) == ch
  {
    if '0' <= ch <= '9' then Some(ch as int - '0' as int) else None
  }

  /** The value a character converts to: 0 for an empty marker, else `int(ch)`. */
  function CharValue(ch: char): (n: Option<int>)
    ensures n.Some? <==> ch in EmptyChars || '1' <= ch <= '9'
    ensures n.Some? ==> 0 <= n.value <= 9 && (n.value == 0 <==> ch in EmptyChars)
  {
    if ch in EmptyChars then Some(0) else IntOfChar(ch)
  }

  /**
   * `convert_to_array` as a specification: each character maps to its value
   * in order; the first character `int()` rejects raises `ValueError`.
   */
  function Convert(line: string): (r: Conversion)
    ensures r.Converted? <==> forall i :: 0 <= i < |line| ==> CharValue(line[i]).Some?
    ensures r.Converted? ==>
      |r.values| == |line| && forall i :: 0 <= i < |line| ==> CharValue(line[i]) == Some(r.values[i])
    ensures r.ValueError? ==>
      r.pos < |line| && CharValue(line[r.pos]).None? && forall i :: 0 <= i < r.pos ==> CharValue(line[i]).Some?
  {
    if line == [] then Converted([])
    else
      var n := |line| - 1;
      var front := Convert(line[..n]);
      assert forall i :: 0 <= i < n ==> line[..n][i] == line[i];
      if front.ValueError? then front
      else match CharValue(line[n])
        case None => ValueError(n)
        case Some(v) => Converted(front.values + [v])
  }

  /** `convert_to_array`: the append loop over the characters of the line. */
  method ConvertToArray(line: string) returns (r: Conversion)
    ensures r == Convert(line)
  {
    var values: seq<int> := [];
    for i := 0 to |line|
      invariant Convert(line[..i]) == Converted(values)
    {
      assert line[..i + 1][..i] == line[..i];
      if line[i] in EmptyChars {
        values := values + [0];
      } else {
        var n := IntOfChar(line[i]);
        if n.None? {
          assert forall k :: 0 <= k < i ==> line[..i][k] == line[k];
          return ValueError(i);
        }
        values := values + [n.value];
      }
    }
    assert line[..|line|] == line;
    r := Converted(values);
  }

  /**
   * What `request_line` returns: a line of empty markers and digits that
   * passes both checks converts to nine values in 0..9 with no digit twice.
   */
  lemma AcceptedLineConverts(line: string)
    requires forall i :: 0 <= i < |line| ==> line[i] in EmptyChars || '1' <= line[i] <= '9'
    requires CheckLength(line) == Pass && CheckUniqueness(line) == Pass
    ensures Convert(line).Converted?
    ensures var vals := Convert(line).values;
      |vals| == 9 && (forall i :: 0 <= i < 9 ==> 0 <= vals[i] <= 9) && NoRepeat(vals)
  {
    var vals := Convert(line).values;
    UniquenessIsNoRepeatedDigit(line);
    forall a, b | 0 <= a < b < |vals| && vals[a] != 0 ensures vals[a] != vals[b] {
      var n := vals[a];
      assert 1 <= n <= 9 && line[a] == DigitChar(n);
      assert !Repeated(line, DigitChar(n));
      assert line[b] != DigitChar(n);
    }
  }
}
