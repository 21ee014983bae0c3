/**
 The `dynamic_tuple!(value, count)` procedural macro: the printed text of
 `value` is repeated `count` times, the copies are joined with ", " and the
 result is wrapped in parentheses. The count literal is parsed as a `usize`;
 when that fails the expansion aborts with "Invalid count of arguments".
 */
module DynamicTuple {
  import opened Wrappers
  import opened Strings

  /** Separator placed between the tuple's elements. */
  const Separator: string := ", "

  /** Largest `usize` of the (64-bit) host the macro runs on. */
  const UsizeMax: nat := 0xFFFF_FFFF_FFFF_FFFF

  /** Why an expansion produced no tuple. */
  datatype ExpandError = InvalidCount

  predicate IsDigit(c: char)
  {
    '0' <= c <= '9'
  }

  predicate AllDigits(s: string)
  {
    forall i :: 0 <= i < |s| ==> IsDigit(s[i])
  }

  function DigitValue(c: char): nat
    requires IsDigit(c)
  {
    c as int - '0' as int
  }

  function DigitChar(d: nat): char
    requires d < 10
  {
    ('0' as int + d) as char
  }

  /** Numeric value of a string of decimal digits, most significant first. */
  function DecimalValue(s: string): nat
    requires AllDigits(s)
  {
    if |s| == 0 then 0 else 10 * DecimalValue(s[..|s| - 1]) + DigitValue(s[|s| - 1])
  }

  /** Shortest decimal spelling of `n`. */
  function DecimalText(n: nat): (s: string)
    ensures |s| > 0 && AllDigits(s)
  {
    if n < 10 then [DigitChar(n)] else DecimalText(n / 10) + [DigitChar(n % 10)]
  }

  /** Parses the base-10 digits of the count literal as a `usize`: no digits,
      a non-digit or a value above the `usize` range is a failure. */
  function ParseCount(digits: string): (r: Option<nat>)
    ensures r.Some? <==> |digits| > 0 && AllDigits(digits) && DecimalValue(digits) <= UsizeMax
    ensures r.Some? ==> r.value == DecimalValue(digits) <= UsizeMax
  {
    if |digits| == 0 || !AllDigits(digits) then None
    else if DecimalValue(digits) <= UsizeMax then Some(DecimalValue(digits))
    else None
  }

  /** Reading back the spelling of a number gives the number. */
  lemma {:induction false} DecimalRoundTrip(n: nat)
    ensures DecimalValue(DecimalText(n)) == n
  {
    if n >= 10 {
      var s := DecimalText(n);
      assert s[..|s| - 1] == DecimalText(n / 10);
      DecimalRoundTrip(n / 10);
    }
  }

  /** Every count in the `usize` range written in decimal parses to itself, and
      every larger one is refused. */
  lemma ParseCountRoundTrip(n: nat)
    ensures ParseCount(DecimalText(n)) == (if n <= UsizeMax then Some(n) else None)
  {
    DecimalRoundTrip(n);
  }

  /** The generated tuple text. */
  function TupleText(value: string, count: nat): (t: string)
    ensures |t| >= 2 && t[0] == '(' && t[|t| - 1] == ')'
  {
    "(" + Join(Separator, Repeat(value, count)) + ")"
  }

  /** The whole macro: value text and count digits in, tuple text or error out. */
  function Expand(value: string, countDigits: string): (r: Result<string, ExpandError>)
    ensures r.Failure? <==> ParseCount(countDigits).None?
    ensures r.Success? ==> |r.value| >= 2 && r.value[0] == '(' && r.value[|r.value| - 1] == ')'
    ensures r.Success? && value != "" && ',' !in value ==>
              ParseTuple(r.value) == Some(Repeat(value, ParseCount(countDigits).value))
  {
    match ParseCount(countDigits)
    case None => Failure(InvalidCount)
    case Some(count) =>
      TupleRoundTrip(value, count);
      Success(TupleText(value, count))
  }

  /** Reads a parenthesised, comma-separated list of element texts; the reader
      against which the generator's shape is stated. */
  function ParseTuple(t: string): Option<seq<string>>
  {
    if |t| < 2 || t[0] != '(' || t[|t| - 1] != ')' then None
    else if |t| == 2 then Some([])
    else Some(SplitOn(t[1..|t| - 1], Separator))
  }

  /** Reading the generated text back yields exactly `count` elements, each the
      unmodified value text, when the value text is non-empty and holds no comma. */
  lemma TupleRoundTrip(value: string, count: nat)
    ensures value != "" && ',' !in value ==>
              ParseTuple(TupleText(value, count)) == Some(Repeat(value, count))
  {
    if value == "" || ',' in value {
      return;
    }
    var parts := Repeat(value, count);
    var t := TupleText(value, count);
    assert t[1..|t| - 1] == Join(Separator, parts);
    if count > 0 {
      SplitJoin(Separator, parts);
      JoinLength(Separator, parts);
      RepeatTotalLength(value, count);
    }
  }

  /** Where copy `i` of the value starts in the joined copies: each copy
      before it takes `|value|` characters and its separator two more. */
  function CopyOffset(value: string, i: nat): nat
  {
    if i == 0 then 0 else CopyOffset(value, i - 1) + |value| + 2
  }

  /** The offset of copy `i` is `i` whole copy-and-separator widths. */
  lemma {:induction false} CopyOffsetProduct(value: string, i: nat)
    ensures CopyOffset(value, i) == i * (|value| + 2)
  {
    if i > 0 {
      CopyOffsetProduct(value, i - 1);
      assert i * (|value| + 2) == (i - 1) * (|value| + 2) + |value| + 2;
    }
  }

  /** A slice past a known prefix is a slice of what follows the prefix. */
  lemma SliceAfterPrefix(a: string, b: string, x: nat, y: nat)
    requires x <= y <= |b|
    ensures (a + b)[|a| + x..|a| + y] == b[x..y]
  {
  }

  /** `count` copies joined by the separator take `count` copy-and-separator
      widths, less the separator the last copy lacks. */
  lemma {:induction false} JoinedCopiesLength(value: string, count: nat)
    requires count >= 1
    ensures |Join(Separator, Repeat(value, count))| + 2 == CopyOffset(value, count)
  {
    if count == 1 {
      assert Repeat(value, 1) == [value];
    } else {
      JoinedCopiesLength(value, count - 1);
      assert Repeat(value, count)[1..] == Repeat(value, count - 1);
    }
  }

  /** In `count` copies joined by the separator, copy `i` starts at
      `CopyOffset(value, i)`. */
  lemma {:induction false} JoinedCopyAt(value: string, count: nat, i: nat)
    requires i < count
    ensures CopyOffset(value, i) + |value| <= |Join(Separator, Repeat(value, count))|
    ensures Join(Separator, Repeat(value, count))[CopyOffset(value, i)..CopyOffset(value, i) + |value|] == value
  {
    JoinedCopiesLength(value, count);
    if count > 1 {
      var rest := Join(Separator, Repeat(value, count - 1));
      assert Repeat(value, count)[1..] == Repeat(value, count - 1);
      assert Join(Separator, Repeat(value, count)) == (value + Separator) + rest;
      if i > 0 {
        JoinedCopyAt(value, count - 1, i - 1);
        var o := CopyOffset(value, i - 1);
        SliceAfterPrefix(value + Separator, rest, o, o + |value|);
      }
    } else {
      assert Repeat(value, 1) == [value];
    }
  }

  /** In `count` copies joined by the separator, the separator follows copy
      `i` whenever it is not the last. */
  lemma {:induction false} JoinedSeparatorAt(value: string, count: nat, i: nat)
    requires i + 1 < count
    ensures CopyOffset(value, i) + |value| + 2 <= |Join(Separator, Repeat(value, count))|
    ensures Join(Separator, Repeat(value, count))[CopyOffset(value, i) + |value|..CopyOffset(value, i) + |value| + 2] == Separator
  {
    JoinedCopiesLength(value, count);
    var rest := Join(Separator, Repeat(value, count - 1));
    assert Repeat(value, count)[1..] == Repeat(value, count - 1);
    assert Join(Separator, Repeat(value, count)) == (value + Separator) + rest;
    if i > 0 {
      JoinedSeparatorAt(value, count - 1, i - 1);
      var o := CopyOffset(value, i - 1) + |value|;
      SliceAfterPrefix(value + Separator, rest, o, o + 2);
    }
  }

  /** Where copy `i` of the value starts in the tuple text: after the opening
      parenthesis and `i` copies, each followed by its separator. */
  function CopyStart(value: string, i: nat): nat
  {
    1 + i * (|value| + 2)
  }

  /** Copy `i` of the value sits in the tuple text right after the opening
      parenthesis and the copies and separators before it. */
  lemma TupleCopyAt(value: string, count: nat, i: nat)
    requires i < count
    ensures CopyStart(value, i) + |value| <= |TupleText(value, count)|
    ensures TupleText(value, count)[CopyStart(value, i)..CopyStart(value, i) + |value|] == value
  {
    var j := Join(Separator, Repeat(value, count));
    JoinedCopyAt(value, count, i);
    CopyOffsetProduct(value, i);
    var o := CopyOffset(value, i);
    SliceAfterPrefix("(", j + ")", o, o + |value|);
    assert TupleText(value, count) == "(" + (j + ")");
  }

  /** A separator follows copy `i` in the tuple text unless it is the last. */
  lemma TupleSeparatorAt(value: string, count: nat, i: nat)
    requires i + 1 < count
    ensures CopyStart(value, i) + |value| + 2 <= |TupleText(value, count)|
    ensures TupleText(value, count)[CopyStart(value, i) + |value|..CopyStart(value, i) + |value| + 2] == Separator
  {
    var j := Join(Separator, Repeat(value, count));
    JoinedSeparatorAt(value, count, i);
    CopyOffsetProduct(value, i);
    var o := CopyOffset(value, i) + |value|;
    SliceAfterPrefix("(", j + ")", o, o + 2);
    assert TupleText(value, count) == "(" + (j + ")");
  }

  /** The tuple text for any value text: `(`, then copy `i` of the value at
      `CopyStart(value, i)`, `", "` after every copy but the last, and `)`;
      `count * (|value| + 2)` characters in all for a positive count. */
  lemma TupleLayout(value: string, count: nat)
    requires count >= 1
    ensures |TupleText(value, count)| == count * (|value| + 2)
    ensures forall i :: 0 <= i < count ==>
              CopyStart(value, i) + |value| <= |TupleText(value, count)| &&
              TupleText(value, count)[CopyStart(value, i)..CopyStart(value, i) + |value|] == value
    ensures forall i :: 0 <= i < count - 1 ==>
              CopyStart(value, i) + |value| + 2 <= |TupleText(value, count)| &&
              TupleText(value, count)[CopyStart(value, i) + |value|..CopyStart(value, i) + |value| + 2] == Separator
  {
    JoinedCopiesLength(value, count);
    CopyOffsetProduct(value, count);
    forall i | 0 <= i < count
      ensures CopyStart(value, i) + |value| <= |TupleText(value, count)|
      ensures TupleText(value, count)[CopyStart(value, i)..CopyStart(value, i) + |value|] == value
    {
      TupleCopyAt(value, count, i);
    }
    forall i | 0 <= i < count - 1
      ensures CopyStart(value, i) + |value| + 2 <= |TupleText(value, count)|
      ensures TupleText(value, count)[CopyStart(value, i) + |value|..CopyStart(value, i) + |value| + 2] == Separator
    {
      TupleSeparatorAt(value, count, i);
    }
  }

  /** A zero count yields the empty tuple. */
  lemma ZeroCount(value: string)
    ensures TupleText(value, 0) == "()"
    ensures Expand(value, "0") == Success("()")
  {
  }

  /** A count of one yields the value in parentheses, with no trailing comma. */
  lemma OneCount(value: string)
    ensures TupleText(value, 1) == "(" + value + ")"
    ensures TupleText(value, 1) != "(" + value + ", )"
    ensures Expand(value, "1") == Success("(" + value + ")")
  {
  }

  /** Length of the tuple text for a positive count: the copies, one separator
      between each two of them, and the two parentheses. */
  lemma TupleLength(value: string, count: nat)
    requires count >= 1
    ensures |TupleText(value, count)| == 2 + count * |value| + 2 * (count - 1)
  {
    JoinLength(Separator, Repeat(value, count));
    RepeatTotalLength(value, count);
  }

  /** `dynamic_tuple!(5, 3)` expands to `(5, 5, 5)`. */
  lemma FiveThreeTimes()
    ensures Expand("5", "3") == Success("(5, 5, 5)")
  {
    assert AllDigits("3") && DecimalValue("3") == 3;
    assert ParseCount("3") == Some(3);
    assert Repeat("5", 3) == ["5", "5", "5"];
    assert ["5", "5", "5"][1..] == ["5", "5"];
    assert ["5", "5"][1..] == ["5"];
    assert Join(Separator, ["5", "5", "5"]) == "5, 5, 5";
    assert TupleText("5", 3) == "(5, 5, 5)";
  }

  /** A count literal outside the `usize` range aborts the expansion, and one
      inside it never does. */
  lemma CountRange(value: string, n: nat)
    ensures Expand(value, DecimalText(n)).Failure? <==> n > UsizeMax
  {
    ParseCountRoundTrip(n);
  }
}
