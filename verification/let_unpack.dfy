/**
 The binding rule of `let_unpack!(a, *b, c = v)`: a pattern of named slots,
 exactly one of them marked as the rest slot, is matched against a sequence.
 Slots before the rest slot take elements from the front, slots after it take
 elements counted from the end, and the rest slot takes the contiguous run in
 between.
 */
module LetUnpack {

  /** One slot of the pattern; `isRest` is the `*` marker. */
  datatype Slot = Slot(name: string, isRest: bool)

  /** What a slot is bound to: one element, or the run a rest slot absorbs. */
  datatype Binding<T> = Element(value: T) | Run(values: seq<T>)

  /** The three pieces of the input: the head slots' elements, the rest run,
      and the tail slots' elements. */
  datatype Pieces<T> = Pieces(head: seq<T>, rest: seq<T>, tail: seq<T>)

  /** Number of slots carrying the rest marker. */
  function RestCount(pattern: seq<Slot>): nat
  {
    if |pattern| == 0 then 0
    else (if pattern[0].isRest then 1 else 0) + RestCount(pattern[1..])
  }

  /** A pattern the rule covers: exactly one rest slot. */
  predicate WellFormed(pattern: seq<Slot>)
  {
    RestCount(pattern) == 1
  }

  /** A pattern without rest markers has none at any position. */
  lemma {:induction false} NoRestSlot(pattern: seq<Slot>)
    requires RestCount(pattern) == 0
    ensures forall i :: 0 <= i < |pattern| ==> !pattern[i].isRest
  {
    if |pattern| > 0 {
      NoRestSlot(pattern[1..]);
      assert forall i :: 1 <= i < |pattern| ==> pattern[i] == pattern[1..][i - 1];
    }
  }

  /** Position of the rest slot: the only slot carrying the marker. */
  function RestIndex(pattern: seq<Slot>): (r: nat)
    requires WellFormed(pattern)
    ensures r < |pattern| && pattern[r].isRest
    ensures forall i :: 0 <= i < |pattern| && i != r ==> !pattern[i].isRest
  {
    if pattern[0].isRest then
      NoRestSlot(pattern[1..]);
      assert forall i :: 1 <= i < |pattern| ==> pattern[i] == pattern[1..][i - 1];
      0
    else
      var r := RestIndex(pattern[1..]);
      assert forall i :: 1 <= i < |pattern| ==> pattern[i] == pattern[1..][i - 1];
      1 + r
  }

  /** Splits `s` for a pattern of `k` slots whose rest slot is at position `r`:
      the head holds the first `r` elements, the tail the last `k - 1 - r`, and
      the rest run everything in between, possibly nothing. */
  function Split<T>(k: nat, r: nat, s: seq<T>): (p: Pieces<T>)
    requires r < k && |s| >= k - 1
    ensures |p.head| == r
    ensures |p.tail| == k - 1 - r
    ensures |p.rest| == |s| - (k - 1)
    ensures p.head + p.rest + p.tail == s
  {
    var tailStart := |s| - (k - 1 - r);
    Pieces(s[..r], s[r..tailStart], s[tailStart..])
  }

  /** The split is the only way to cut `s` into a head of `r` elements and a
      tail of `k - 1 - r` elements around a middle run. */
  lemma {:induction false} SplitUnique<T>(k: nat, r: nat, s: seq<T>, head: seq<T>, rest: seq<T>, tail: seq<T>)
    requires r < k && |s| >= k - 1
    requires |head| == r && |tail| == k - 1 - r && head + rest + tail == s
    ensures Split(k, r, s) == Pieces(head, rest, tail)
  {
  }

  /** Where the pieces of a split come from: head element `i` is input element
      `i`, the rest run starts at `r`, and tail element `j` is counted from the
      end of the input. */
  lemma {:induction false} SplitPositions<T>(k: nat, r: nat, s: seq<T>)
    requires r < k && |s| >= k - 1
    ensures forall i :: 0 <= i < r ==> Split(k, r, s).head[i] == s[i]
    ensures Split(k, r, s).rest == s[r..|s| - (k - 1 - r)]
    ensures forall j :: 0 <= j < k - 1 - r ==> Split(k, r, s).tail[j] == s[|s| - (k - 1 - r) + j]
  {
  }

  /** Pairs each slot's name with what it binds, given the pieces of the input
      and the rest slot's position `r`. */
  function Bind<T>(pattern: seq<Slot>, r: nat, p: Pieces<T>): (bound: seq<(string, Binding<T>)>)
    requires r < |pattern| && |p.head| == r && |p.tail| == |pattern| - 1 - r
    ensures |bound| == |pattern|
    ensures forall i :: 0 <= i < |pattern| ==> bound[i] == (pattern[i].name, SlotBinding(p, r, i))
  {
    seq(|pattern|, i requires 0 <= i < |pattern| => (pattern[i].name, SlotBinding(p, r, i)))
  }

  /** What slot `i` binds, given the pieces and the rest slot's position `r`. */
  function SlotBinding<T>(p: Pieces<T>, r: nat, i: nat): Binding<T>
    requires i < r ==> i < |p.head|
    requires i > r ==> i - r - 1 < |p.tail|
  {
    if i < r then Element(p.head[i])
    else if i == r then Run(p.rest)
    else Element(p.tail[i - r - 1])
  }

  /** The bindings of the split of `s`, slot by slot, in terms of `s`. */
  lemma {:induction false} BindSplit<T>(pattern: seq<Slot>, r: nat, s: seq<T>)
    requires r < |pattern| && |s| >= |pattern| - 1
    ensures forall i :: 0 <= i < r ==> Bind(pattern, r, Split(|pattern|, r, s))[i].1 == Element(s[i])
    ensures Bind(pattern, r, Split(|pattern|, r, s))[r].1 == Run(s[r..|s| - |pattern| + r + 1])
    ensures forall i :: r < i < |pattern| ==>
              Bind(pattern, r, Split(|pattern|, r, s))[i].1 == Element(s[|s| - |pattern| + i])
  {
    var k := |pattern|;
    var p := Split(k, r, s);
    SplitPositions(k, r, s);
    forall i | r < i < k
      ensures Bind(pattern, r, p)[i].1 == Element(s[|s| - k + i])
    {
      assert p.tail[i - r - 1] == s[|s| - (k - 1 - r) + (i - r - 1)];
    }
  }

  /** Binds every slot of a well-formed pattern, in slot order, to its part of `s`. */
  function Unpack<T>(pattern: seq<Slot>, s: seq<T>): (bound: seq<(string, Binding<T>)>)
    requires WellFormed(pattern) && |s| >= |pattern| - 1
    ensures |bound| == |pattern|
    ensures forall i :: 0 <= i < |pattern| ==> bound[i].0 == pattern[i].name
    ensures forall i :: 0 <= i < RestIndex(pattern) ==> bound[i].1 == Element(s[i])
    ensures bound[RestIndex(pattern)].1 == Run(s[RestIndex(pattern)..|s| - |pattern| + RestIndex(pattern) + 1])
    ensures forall i :: RestIndex(pattern) < i < |pattern| ==> bound[i].1 == Element(s[|s| - |pattern| + i])
  {
    var r := RestIndex(pattern);
    BindSplit(pattern, r, s);
    Bind(pattern, r, Split(|pattern|, r, s))
  }

  /** The elements of the bindings, in slot order: a run contributes all of its
      elements. */
  function Flatten<T>(bound: seq<(string, Binding<T>)>): seq<T>
  {
    if |bound| == 0 then [] else Values(bound[0].1) + Flatten(bound[1..])
  }

  /** The elements one binding holds. */
  function Values<T>(b: Binding<T>): seq<T>
  {
    match b
    case Element(x) => [x]
    case Run(xs) => xs
  }

  lemma {:induction false} FlattenAppend<T>(a: seq<(string, Binding<T>)>, b: seq<(string, Binding<T>)>)
    ensures Flatten(a + b) == Flatten(a) + Flatten(b)
    decreases |a|
  {
    if |a| == 0 {
      assert a + b == b;
    } else {
      assert (a + b)[0] == a[0];
      assert (a + b)[1..] == a[1..] + b;
      FlattenAppend(a[1..], b);
    }
  }

  /** Bindings that are single elements flatten to those elements. */
  lemma {:induction false} FlattenElements<T>(bound: seq<(string, Binding<T>)>, xs: seq<T>)
    requires |bound| == |xs|
    requires forall i :: 0 <= i < |bound| ==> bound[i].1 == Element(xs[i])
    ensures Flatten(bound) == xs
    decreases |bound|
  {
    if |bound| > 0 {
      FlattenElements(bound[1..], xs[1..]);
    }
  }

  /** Flattening around one position: what comes before it, its own values,
      and what comes after it. */
  lemma {:induction false} FlattenAround<T>(bound: seq<(string, Binding<T>)>, r: nat)
    requires r < |bound|
    ensures Flatten(bound) == Flatten(bound[..r]) + Values(bound[r].1) + Flatten(bound[r + 1..])
    decreases r
  {
    if r == 0 {
      assert bound[..0] == [];
      assert bound[1..] == bound[r + 1..];
    } else {
      var tail := bound[1..];
      FlattenAround(tail, r - 1);
      assert tail[..r - 1] == bound[..r][1..];
      assert tail[r - 1] == bound[r];
      assert tail[r..] == bound[r + 1..];
      assert bound[..r][0] == bound[0];
    }
  }

  /** Head, rest and tail bindings, read in slot order, reconstruct the input. */
  lemma {:induction false} UnpackReconstructs<T>(pattern: seq<Slot>, s: seq<T>)
    requires WellFormed(pattern) && |s| >= |pattern| - 1
    ensures Flatten(Unpack(pattern, s)) == s
  {
    var bound := Unpack(pattern, s);
    var k := |pattern|;
    var r := RestIndex(pattern);
    var tailStart := |s| - (k - 1 - r);
    FlattenAround(bound, r);
    FlattenElements(bound[..r], s[..r]);
    var back := bound[r + 1..];
    forall i | 0 <= i < |back|
      ensures back[i].1 == Element(s[tailStart..][i])
    {
      assert back[i] == bound[r + 1 + i];
    }
    FlattenElements(back, s[tailStart..]);
    assert Values(bound[r].1) == s[r..tailStart];
    assert s == s[..r] + s[r..tailStart] + s[tailStart..];
  }

  /** The rest run holds every element no other slot claims: `|s| - (k - 1)` of them. */
  lemma {:induction false} RestLength<T>(pattern: seq<Slot>, s: seq<T>)
    requires WellFormed(pattern) && |s| >= |pattern| - 1
    ensures Unpack(pattern, s)[RestIndex(pattern)].1.Run?
    ensures |Unpack(pattern, s)[RestIndex(pattern)].1.values| == |s| - (|pattern| - 1)
  {
  }

  /** A slot after the rest slot binds the element as far from the end of the
      input as the slot is from the end of the pattern. */
  lemma {:induction false} TailBinding<T>(pattern: seq<Slot>, s: seq<T>, i: nat)
    requires WellFormed(pattern) && |s| >= |pattern| - 1
    requires RestIndex(pattern) < i < |pattern|
    ensures Unpack(pattern, s)[i] == (pattern[i].name, Element(s[|s| - |pattern| + i]))
  {
  }

  /** Tail slots count from the end: putting more elements in front of the
      input leaves every tail binding unchanged. */
  lemma {:induction false} PrependKeepsTail<T>(pattern: seq<Slot>, extra: seq<T>, s: seq<T>)
    requires WellFormed(pattern) && |s| >= |pattern| - 1
    ensures forall i :: RestIndex(pattern) < i < |pattern| ==>
              Unpack(pattern, extra + s)[i] == Unpack(pattern, s)[i]
  {
    forall i | RestIndex(pattern) < i < |pattern|
      ensures Unpack(pattern, extra + s)[i] == Unpack(pattern, s)[i]
    {
      TailBinding(pattern, extra + s, i);
      TailBinding(pattern, s, i);
      assert (extra + s)[|extra + s| - |pattern| + i] == s[|s| - |pattern| + i];
    }
  }

  /** Head slots count from the front: putting more elements after the input
      leaves every head binding unchanged. */
  lemma {:induction false} AppendKeepsHead<T>(pattern: seq<Slot>, s: seq<T>, extra: seq<T>)
    requires WellFormed(pattern) && |s| >= |pattern| - 1
    ensures forall i :: 0 <= i < RestIndex(pattern) ==>
              Unpack(pattern, s + extra)[i] == Unpack(pattern, s)[i]
  {
  }

  /** `let_unpack!(a, *b, c = vec![5, 3, 7])` binds `a = 5`, `b = [3]`, `c = 7`. */
  lemma ItWorks()
    ensures Unpack([Slot("a", false), Slot("b", true), Slot("c", false)], [5, 3, 7])
         == [("a", Element(5)), ("b", Run([3])), ("c", Element(7))]
  {
    var pattern := [Slot("a", false), Slot("b", true), Slot("c", false)];
    assert pattern[1..] == [Slot("b", true), Slot("c", false)];
    assert pattern[1..][1..] == [Slot("c", false)];
    assert RestCount(pattern) == 1;
    assert RestIndex(pattern) == 1;
    var bound := Unpack(pattern, [5, 3, 7]);
    assert bound[1].1 == Run([5, 3, 7][1..2]);
    assert [5, 3, 7][1..2] == [3];
  }

  /** `let_unpack!(*a, b, c = vec![5, 6, 3, 7])` binds `a = [5, 6]`, `b = 3`, `c = 7`. */
  lemma ItWorks2()
    ensures Unpack([Slot("a", true), Slot("b", false), Slot("c", false)], [5, 6, 3, 7])
         == [("a", Run([5, 6])), ("b", Element(3)), ("c", Element(7))]
  {
    var pattern := [Slot("a", true), Slot("b", false), Slot("c", false)];
    assert pattern[1..] == [Slot("b", false), Slot("c", false)];
    assert pattern[1..][1..] == [Slot("c", false)];
    assert RestCount(pattern) == 1;
    assert RestIndex(pattern) == 0;
    assert [5, 6, 3, 7][0..2] == [5, 6];
  }

  /** With a leading rest slot, the last two elements go to `b` and `c`
      whatever the input's length, and the rest absorbs all the others. */
  lemma {:induction false} LeadingRestTakesAllButLastTwo<T>(s: seq<T>)
    requires |s| >= 2
    ensures Unpack([Slot("a", true), Slot("b", false), Slot("c", false)], s)
         == [("a", Run(s[..|s| - 2])), ("b", Element(s[|s| - 2])), ("c", Element(s[|s| - 1]))]
  {
  }
}
