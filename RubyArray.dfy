/**
 The growable buffer behind Ruby's `Array`: a vector with Ruby-flavoured
 slicing and splicing. Reads that never fail saturate at the end of the
 vector; writes past the end pad the gap with a default element, which the
 model takes as a `pad` argument.
 */
module RubyArray {
  import opened Wrappers
  import opened Ints

  // ---------------------------------------------------------------------
  // Specification functions on sequences

  /** `s` extended with `pad` up to length `n` (`resize_with(n, T::default)` when `n >= |s|`). */
  function Padded<T>(s: seq<T>, n: nat, pad: T): seq<T> {
    if n <= |s| then s else s + seq(n - |s|, _ => pad)
  }

  /** The number of elements a splice at `index` removes: what exists of `drain` elements from `index`. */
  function Drained(len: nat, index: nat, drain: nat): (r: nat)
    ensures r <= drain
    ensures index + r <= Max(len, index)
    ensures index >= len ==> r == 0
  {
    Min(if index <= len then len - index else 0, drain)
  }

  /**
   The result of replacing `drained` elements at `index` by `values`,
   after padding the sequence up to `index`.
   */
  function Splice<T>(s: seq<T>, index: nat, drained: nat, values: seq<T>, pad: T): seq<T>
    requires index + drained <= Max(|s|, index)
  {
    var p := Padded(s, index, pad);
    p[..index] + values + p[index + drained..]
  }

  /** `n` concatenated copies of `s`. */
  function Repeated<T>(s: seq<T>, n: nat): seq<T> {
    if n == 0 then [] else s + Repeated(s, n - 1)
  }

  // ---------------------------------------------------------------------
  // Lemmas about the specification functions

  /** Padding keeps the original elements, then fills with `pad` up to `n`. */
  lemma PaddedAt<T>(s: seq<T>, n: nat, pad: T)
    ensures |Padded(s, n, pad)| == Max(|s|, n)
    ensures Padded(s, n, pad)[..|s|] == s
    ensures forall j :: |s| <= j < |Padded(s, n, pad)| ==> Padded(s, n, pad)[j] == pad
  {
  }

  /**
   A splice, element by element: the elements before `index` are kept, the
   gap up to `index` is padding, then come the new values, then the elements
   after the drained ones.
   */
  lemma SpliceAt<T>(s: seq<T>, index: nat, drained: nat, values: seq<T>, pad: T)
    requires index + drained <= Max(|s|, index)
    ensures |Splice(s, index, drained, values, pad)| == Max(|s|, index) - drained + |values|
    ensures forall j :: 0 <= j < Min(|s|, index) ==> Splice(s, index, drained, values, pad)[j] == s[j]
    ensures forall j :: |s| <= j < index ==> Splice(s, index, drained, values, pad)[j] == pad
    ensures forall j :: 0 <= j < |values| ==> Splice(s, index, drained, values, pad)[index + j] == values[j]
    ensures forall j :: index + drained <= j < |s| ==>
      Splice(s, index, drained, values, pad)[j - drained + |values|] == s[j]
  {
    var p := Padded(s, index, pad);
    PaddedAt(s, index, pad);
    forall j | 0 <= j < Min(|s|, index) ensures p[j] == s[j] {
      assert p[..|s|][j] == p[j];
    }
    forall j | index + drained <= j < |s| ensures p[j] == s[j] {
      assert p[..|s|][j] == p[j];
    }
  }

  /** Draining everything from an index inside the array truncates it there before the new values. */
  lemma SpliceDrainToEnd<T>(s: seq<T>, index: nat, drain: nat, values: seq<T>, pad: T)
    requires index <= |s| && drain >= |s| - index
    ensures Splice(s, index, Drained(|s|, index, drain), values, pad) == s[..index] + values
  {
  }

  /** Setting one element is the one-element splice that drains the element it replaces, if any. */
  lemma SetIsOneElementSplice<T>(s: seq<T>, index: nat, elem: T, pad: T)
    ensures (if index < |s| then s[index := elem] else Padded(s, index, pad) + [elem])
      == Splice(s, index, Drained(|s|, index, 1), [elem], pad)
  {
    if index < |s| {
      assert s[index := elem] == s[..index] + [elem] + s[index + 1..];
    } else {
      assert Padded(s, index, pad)[..index] == Padded(s, index, pad);
    }
  }

  /** Inserting at the end of the array appends; inserting past it pads the gap first. */
  lemma InsertAtOrPastEnd<T>(s: seq<T>, index: nat, values: seq<T>, pad: T)
    requires index >= |s|
    ensures Splice(s, index, 0, values, pad) == s + seq(index - |s|, _ => pad) + values
  {
    var p := Padded(s, index, pad);
    assert p[..index] == p;
    assert p[index..] == [];
  }

  lemma ModShift(i: int, m: int)
    requires m > 0 && i >= m
    ensures (i - m) % m == i % m
  {
    var q, r := i / m, i % m;
    assert i == q * m + r;
    MulStep(q - 1, m);
    DivModUnique(i - m, q - 1, r, m);
  }

  /** `Repeated(s, n)` has `|s| * n` elements, and element `i` of it is `s[i % |s|]`. */
  lemma {:induction false} RepeatedAt<T>(s: seq<T>, n: nat)
    ensures |Repeated(s, n)| == |s| * n
    ensures forall i :: 0 <= i < |Repeated(s, n)| ==> Repeated(s, n)[i] == s[i % |s|]
  {
    if n > 0 {
      RepeatedAt(s, n - 1);
      MulStep(n - 1, |s|);
      if |s| > 0 {
        PeriodicPrefix(s, Repeated(s, n - 1));
      }
    }
  }

  /** Putting one period in front of a sequence with period `s` keeps the period. */
  lemma PeriodicPrefix<T>(s: seq<T>, tail: seq<T>)
    requires |s| > 0 && forall j :: 0 <= j < |tail| ==> tail[j] == s[j % |s|]
    ensures forall i :: 0 <= i < |s + tail| ==> (s + tail)[i] == s[i % |s|]
  {
    forall i | 0 <= i < |s + tail| ensures (s + tail)[i] == s[i % |s|] {
      if i >= |s| {
        ModShift(i, |s|);
      }
    }
  }

  // ---------------------------------------------------------------------
  // The buffer

  class Array<T> {
    /** The elements of the inner vector, in order. */
    var elems: seq<T>

    /** A vector never holds more than `usize::MAX` elements. */
    ghost predicate Valid()
      reads this
    {
      |elems| <= USIZE_MAX
    }

    /** `Array::new()`: an empty array. */
    constructor ()
      ensures Valid() && elems == []
    {
      elems := [];
    }

    /** `Array::with_len_and_default(len, default)`: `len` copies of `default`. */
    constructor WithLenAndDefault(len: usize, default: T)
      ensures Valid() && |elems| == len
      ensures forall i :: 0 <= i < len ==> elems[i] == default
    {
      elems := seq(len, _ => default);
    }

    function Len(): (n: usize)
      reads this
      requires Valid()
      ensures n == |elems|
    {
      |elems|
    }

    /** `first_n(n)`: the first `n` elements, or all of them when there are fewer. */
    function FirstN(n: usize): (r: seq<T>)
      reads this
      ensures |r| == Min(n, |elems|)
      ensures r == elems[..|r|]
    {
      if n <= |elems| then elems[..n] else elems
    }

    /** `last_n(n)`: the last `n` elements, or all of them when there are fewer. */
    function LastN(n: usize): (r: seq<T>)
      reads this
      ensures |r| == Min(n, |elems|)
      ensures r == elems[|elems| - |r|..]
    {
      var begin := if n <= |elems| then |elems| - n else 0;
      elems[begin..]
    }

    /** `take_n(n)`: the same elements as `first_n(n)`. */
    function TakeN(n: usize): (r: seq<T>)
      reads this
      ensures |r| == Min(n, |elems|)
      ensures r == elems[..|r|]
    {
      if n <= |elems| then elems[..n] else elems
    }

    /** `drop_n(n)`: everything after the first `n` elements, empty when there are fewer. */
    function DropN(n: usize): (r: seq<T>)
      reads this
      ensures |r| == |elems| - Min(n, |elems|)
      ensures r == elems[|elems| - |r|..]
    {
      if n <= |elems| then elems[n..] else []
    }

    /**
     `slice(start, len)`: up to `len` elements from `start`; empty when the
     array is empty, `len` is zero or `start` is past the end, and cut short
     at the end of the array, also when `start + len` overflows.
     */
    function Slice(start: usize, len: usize): (r: seq<T>)
      reads this
      requires Valid()
      ensures r == if |elems| == 0 || len == 0 || start >= |elems| then []
                   else elems[start..Min(start + len, |elems|)]
    {
      if |elems| == 0 || len == 0 then []
      else if start + len <= USIZE_MAX then
        var end := start + len;
        if end <= |elems| then elems[start..end]
        else if start <= |elems| then elems[start..]
        else []
      else if start <= |elems| then elems[start..]
      else []
    }

    /** `repeat(n)`: `n` copies of the elements, or None when `len * n` overflows `usize`. */
    function Repeat(n: usize): (r: Option<seq<T>>)
      reads this
      ensures r.None? <==> |elems| * n > USIZE_MAX
      ensures r.Some? ==> |r.value| == |elems| * n
      ensures r.Some? ==> forall i :: 0 <= i < |r.value| ==> r.value[i] == elems[i % |elems|]
    {
      RepeatedAt(elems, n);
      if |elems| * n <= USIZE_MAX then Some(Repeated(elems, n)) else None
    }

    /** `delete_at(index)`: removes and returns element `index`, or changes nothing when it does not exist. */
    method DeleteAt(index: usize) returns (r: Option<T>)
      requires Valid()
      modifies this
      ensures Valid()
      ensures index < |old(elems)| ==> r == Some(old(elems)[index]) && elems == old(elems)[..index] + old(elems)[index + 1..]
      ensures index >= |old(elems)| ==> r == None && elems == old(elems)
    {
      if index < |elems| {
        r := Some(elems[index]);
        elems := elems[..index] + elems[index + 1..];
      } else {
        r := None;
      }
    }

    /** `pop_n(n)`: removes and returns the last `min(n, len)` elements, in order. */
    method PopN(n: usize) returns (popped: seq<T>)
      requires Valid()
      modifies this
      ensures Valid()
      ensures |popped| == Min(n, |old(elems)|)
      ensures elems + popped == old(elems)
    {
      if n == 0 {
        return [];
      }
      var splitAt := if n <= |elems| then |elems| - n else 0;
      popped := elems[splitAt..];
      elems := elems[..splitAt];
    }

    /** `shift_n(n)`: removes and returns the first `min(n, len)` elements, in order. */
    method ShiftN(n: usize) returns (shifted: seq<T>)
      requires Valid()
      modifies this
      ensures Valid()
      ensures |shifted| == Min(n, |old(elems)|)
      ensures shifted + elems == old(elems)
    {
      if n == 0 {
        shifted := [];
      } else if n < |elems| {
        shifted := elems[..n];
        elems := elems[n..];
      } else {
        shifted := elems;
        elems := [];
      }
    }

    /** `concat(other)`: appends `other`. */
    method Concat(other: seq<T>)
      requires Valid() && |elems| + |other| <= USIZE_MAX
      modifies this
      ensures Valid() && elems == old(elems) + other
    {
      elems := elems + other;
    }

    /** `unshift_n(other)`: prepends `other`. */
    method UnshiftN(other: seq<T>)
      requires Valid() && |elems| + |other| <= USIZE_MAX
      modifies this
      ensures Valid() && elems == other + old(elems)
    {
      var tail := elems;
      elems := [];
      elems := elems + other;
      elems := elems + tail;
    }

    /**
     `set(index, elem)`: replaces element `index` when it exists; otherwise
     pads the array with `pad` up to `index` and pushes `elem`.
     */
    method Set(index: usize, elem: T, pad: T)
      requires Valid() && index < USIZE_MAX
      modifies this
      ensures Valid()
      ensures index < |old(elems)| ==> elems == old(elems)[index := elem]
      ensures index >= |old(elems)| ==> elems == old(elems) + seq(index - |old(elems)|, _ => pad) + [elem]
    {
      if index < |elems| {
        elems := elems[index := elem];
      } else {
        elems := elems + seq(index - |elems|, _ => pad);
        elems := elems + [elem];
      }
    }

    /**
     `set_with_drain(start, drain, elem)`: replaces up to `drain` elements
     from `start` by `elem` (inserting it when `drain` is zero), padding when
     `start` is past the end; returns how many elements were drained.
     */
    method SetWithDrain(start: usize, drain: usize, elem: T, pad: T) returns (drained: usize)
      requires Valid() && if start < |elems| then drain > 0 || |elems| < USIZE_MAX else start < USIZE_MAX
      modifies this
      ensures Valid()
      ensures drained == Drained(|old(elems)|, start, drain)
      ensures elems == Splice(old(elems), start, drained, [elem], pad)
    {
      var buflen := |elems|;
      drained := Drained(buflen, start, drain);
      if start < buflen {
        if drain == 0 {
          elems := elems[..start] + [elem] + elems[start..];
        } else if drain == 1 {
          elems := elems[start := elem];
          assert elems == old(elems)[..start] + [elem] + old(elems)[start + 1..];
        } else {
          elems := elems[start := elem];
          var drainEnd := Min(start + drain, buflen);
          elems := elems[..start + 1] + elems[drainEnd..];
          assert elems[..start + 1] == old(elems)[..start] + [elem];
        }
      } else {
        elems := elems + seq(start - buflen, _ => pad);
        elems := elems + [elem];
        InsertAtOrPastEnd(old(elems), start, [elem], pad);
      }
    }

    /** `insert_slice(index, values)`: inserts `values` before element `index`, padding when `index` is past the end. */
    method InsertSlice(index: usize, values: seq<T>, pad: T)
      requires Valid() && Max(|elems|, index) + |values| <= USIZE_MAX
      modifies this
      ensures Valid()
      ensures elems == Splice(old(elems), index, 0, values, pad)
    {
      if index >= |elems| {
        elems := elems + seq(index - |elems|, _ => pad);
      }
      if index == |elems| {
        elems := elems + values;
        InsertAtOrPastEnd(old(elems), index, values, pad);
      } else {
        var tail := elems[index..];
        elems := elems[..index];
        elems := elems + values;
        elems := elems + tail;
      }
    }

    /**
     `set_slice(index, drain, values)`: replaces up to `drain` elements from
     `index` by `values`, padding when `index` is past the end; returns how
     many elements were drained.
     */
    method SetSlice(index: usize, drain: usize, values: seq<T>, pad: T) returns (drained: usize)
      requires Valid() && Max(|elems|, index) - Drained(|elems|, index, drain) + |values| <= USIZE_MAX
      modifies this
      ensures Valid()
      ensures drained == Drained(|old(elems)|, index, drain)
      ensures elems == Splice(old(elems), index, drained, values, pad)
    {
      var buflen := |elems|;
      drained := Drained(buflen, index, drain);
      if index >= |elems| {
        elems := elems + seq(index - |elems|, _ => pad);
      }
      if index == |elems| {
        elems := elems + values;
        InsertAtOrPastEnd(old(elems), index, values, pad);
      } else {
        elems := elems[..index] + values + elems[index + drained..];
      }
    }
  }

  /** `take_n(n)` and `drop_n(n)` split the array between them. */
  lemma TakeDropSplit<T>(a: Array<T>, n: usize)
    ensures a.TakeN(n) + a.DropN(n) == a.elems
  {
  }

  /** `first_n` and `take_n` agree on every `n`. */
  lemma FirstIsTake<T>(a: Array<T>, n: usize)
    ensures a.FirstN(n) == a.TakeN(n)
  {
  }

  /** Scenarios from the unit-test table, run through the methods' contracts. */
  method TestTable()
  {
    var a := new Array<int>();
    a.Concat([1, 2, 3, 4, 5]);
    a.InsertSlice(10, [8, 9, 10], 0);
    assert a.elems == [1, 2, 3, 4, 5, 0, 0, 0, 0, 0, 8, 9, 10];

    var b := new Array<int>();
    b.Concat([1, 2, 3, 4, 5]);
    var drained := b.SetSlice(1, 10, [7], 0);
    assert drained == 4;
    assert b.elems == [1, 7];

    var c := new Array<int>();
    c.Concat([1, 2, 3, 4, 5]);
    drained := c.SetWithDrain(2, 2, 9, 0);
    assert drained == 2;
    assert c.elems == [1, 2, 9, 5];

    var popped := c.PopN(3);
    assert c.elems + popped == [1, 2, 9, 5];
    assert c.elems == (c.elems + popped)[..1];
    assert popped == [2, 9, 5] && c.elems == [1];
  }
}
