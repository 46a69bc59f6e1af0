/**
 * The infinity-spool order of `ValgAce`: `ACE_SET_INFINITY_SPOOL_ORDER` validates
 * and saves a comma-separated order of global slots (or `none`), and
 * `ACE_INFINITY_SPOOL` finds the current slot in the saved order and searches,
 * wrapping around, for the next slot that is ready. The text layer (splitting
 * on commas, `strip`, `lower`, `int(...)`) is represented by tokens; whether a
 * slot is ready (its unit connected and the slot reporting `ready`) is a set of
 * global slots.
 */
module InfinitySpool {
  import opened Wrappers

  /** One item of the ORDER text after `split(',')`, `strip()` and `lower()`. */
  datatype Token = NoneWord | Number(n: int) | NotANumber

  /** One position of an order: a global slot, or `none` (skipped). */
  datatype Entry = Empty | Slot(slot: int)

  /** Why `ACE_SET_INFINITY_SPOOL_ORDER` refuses an order; positions count from 1. */
  datatype OrderError =
    | MissingOrder
    | TooManyItems(count: int)
    | OutOfRange(slot: int, position: int)
    | InvalidItem(position: int)

  /** An item the order accepts: `none`, or a global slot in 0 .. totalSlots - 1. */
  predicate Acceptable(t: Token, totalSlots: int)
  {
    t.NoneWord? || (t.Number? && 0 <= t.n < totalSlots)
  }

  /** The entry an accepted item stands for. */
  function EntryOf(t: Token): Entry
  {
    if t.Number? then Slot(t.n) else Empty
  }

  /** `r` with the entries `v` put in front of it, when it is a success. */
  function Prepend(v: seq<Entry>, r: Result<seq<Entry>, OrderError>): Result<seq<Entry>, OrderError>
  {
    if r.Ok? then Ok(v + r.value) else r
  }

  /** Item-by-item validation from position `i` on: the entries, or the first refusal. */
  function CheckItems(items: seq<Token>, totalSlots: int, i: nat): Result<seq<Entry>, OrderError>
    requires i <= |items|
    decreases |items| - i
  {
    if i == |items| then Ok([])
    else
      match items[i]
      case NotANumber => Err(InvalidItem(i + 1))
      case Number(n) =>
        if n < 0 || n >= totalSlots then Err(OutOfRange(n, i + 1))
        else Prepend([Slot(n)], CheckItems(items, totalSlots, i + 1))
      case NoneWord => Prepend([Empty], CheckItems(items, totalSlots, i + 1))
  }

  /** What `ACE_SET_INFINITY_SPOOL_ORDER` makes of the items of ORDER (no items: the parameter was empty). */
  function ValidateOrder(items: seq<Token>, totalSlots: int): Result<seq<Entry>, OrderError>
  {
    if items == [] then Err(MissingOrder)
    else if |items| > totalSlots then Err(TooManyItems(|items|))
    else CheckItems(items, totalSlots, 0)
  }

  lemma PrependAppend(v: seq<Entry>, e: Entry, r: Result<seq<Entry>, OrderError>)
    ensures Prepend(v, Prepend([e], r)) == Prepend(v + [e], r)
  {
    if r.Ok? {
      assert v + ([e] + r.value) == v + [e] + r.value;
    }
  }

  /** The validation loop of `ACE_SET_INFINITY_SPOOL_ORDER`, up to the point where the order is saved. */
  method SetOrder(items: seq<Token>, totalSlots: int) returns (r: Result<seq<Entry>, OrderError>)
    ensures r == ValidateOrder(items, totalSlots)
  {
    if items == [] {
      return Err(MissingOrder);
    }
    if |items| > totalSlots {
      return Err(TooManyItems(|items|));
    }
    var validSlots: seq<Entry> := [];
    var i := 0;
    assert CheckItems(items, totalSlots, 0).Ok? ==> [] + CheckItems(items, totalSlots, 0).value == CheckItems(items, totalSlots, 0).value;
    while i < |items|
      invariant 0 <= i <= |items|
      invariant CheckItems(items, totalSlots, 0) == Prepend(validSlots, CheckItems(items, totalSlots, i))
    {
      match items[i] {
        case NoneWord =>
          PrependAppend(validSlots, Empty, CheckItems(items, totalSlots, i + 1));
          validSlots := validSlots + [Empty];
        case Number(n) =>
          if n < 0 || n >= totalSlots {
            return Err(OutOfRange(n, i + 1));
          }
          PrependAppend(validSlots, Slot(n), CheckItems(items, totalSlots, i + 1));
          validSlots := validSlots + [Slot(n)];
        case NotANumber =>
          return Err(InvalidItem(i + 1));
      }
      i := i + 1;
    }
    assert validSlots + [] == validSlots;
    return Ok(validSlots);
  }

  /** Validation from position `i` succeeds exactly when every later item is acceptable, and then maps each item to its entry. */
  lemma {:induction false} CheckItemsOk(items: seq<Token>, totalSlots: int, i: nat)
    requires i <= |items|
    ensures var r := CheckItems(items, totalSlots, i);
            && (r.Ok? <==> forall k :: i <= k < |items| ==> Acceptable(items[k], totalSlots))
            && (r.Ok? ==> |r.value| == |items| - i && forall k :: i <= k < |items| ==> r.value[k - i] == EntryOf(items[k]))
    decreases |items| - i
  {
    if i < |items| {
      CheckItemsOk(items, totalSlots, i + 1);
      var r' := CheckItems(items, totalSlots, i + 1);
      if r'.Ok? && Acceptable(items[i], totalSlots) {
        var v := [EntryOf(items[i])] + r'.value;
        assert CheckItems(items, totalSlots, i) == Ok(v);
        forall k | i < k < |items|
          ensures v[k - i] == EntryOf(items[k])
        {
          assert v[k - i] == r'.value[k - (i + 1)];
        }
      }
    }
  }

  /** A refusal names the first item that is not acceptable, at its 1-based position, and why. */
  lemma {:induction false} CheckItemsErr(items: seq<Token>, totalSlots: int, i: nat)
    requires i <= |items|
    ensures var r := CheckItems(items, totalSlots, i);
            r.Err? ==>
              && (r.error.OutOfRange? || r.error.InvalidItem?)
              && var p := if r.error.OutOfRange? then r.error.position else r.error.position;
                 && i < p <= |items|
                 && (forall k :: i <= k < p - 1 ==> Acceptable(items[k], totalSlots))
                 && (r.error.OutOfRange? ==> items[p - 1] == Number(r.error.slot) && !(0 <= r.error.slot < totalSlots))
                 && (r.error.InvalidItem? ==> items[p - 1] == NotANumber)
    decreases |items| - i
  {
    if i < |items| {
      CheckItemsErr(items, totalSlots, i + 1);
    }
  }

  /** An order is accepted exactly when it is non-empty, no longer than the slot count, and every item is acceptable; the entries follow the items. */
  lemma ValidateOrderOk(items: seq<Token>, totalSlots: int)
    ensures var r := ValidateOrder(items, totalSlots);
            && (r.Ok? <==> items != [] && |items| <= totalSlots && forall k :: 0 <= k < |items| ==> Acceptable(items[k], totalSlots))
            && (r.Ok? ==> |r.value| == |items| && forall k :: 0 <= k < |items| ==> r.value[k] == EntryOf(items[k]))
  {
    CheckItemsOk(items, totalSlots, 0);
  }

  /** The order is refused as missing exactly when it has no items, and as too long exactly when it has more items than slots. */
  lemma ValidateOrderErr(items: seq<Token>, totalSlots: int)
    ensures ValidateOrder(items, totalSlots) == Err(MissingOrder) <==> items == []
    ensures ValidateOrder(items, totalSlots) == Err(TooManyItems(|items|)) <==> items != [] && |items| > totalSlots
  {
    if items != [] && |items| <= totalSlots {
      CheckItemsErr(items, totalSlots, 0);
    }
  }

  /** The saved order `','.join(...)`: a slot is written as its number, an empty position as `none`. */
  function SavedTokens(order: seq<Entry>): (t: seq<Token>)
    ensures |t| == |order|
  {
    if order == [] then [] else [if order[0].Slot? then Number(order[0].slot) else NoneWord] + SavedTokens(order[1..])
  }

  /** Reading the saved order back in `ACE_INFINITY_SPOOL`: `None` for an unset order or an item that is not a number. */
  function ReadOrder(tokens: seq<Token>): Option<seq<Entry>>
  {
    if tokens == [] then None else ReadItems(tokens)
  }

  function ReadItems(tokens: seq<Token>): Option<seq<Entry>>
  {
    if tokens == [] then Some([])
    else if tokens[0].NotANumber? then None
    else
      var rest := ReadItems(tokens[1..]);
      if rest.None? then None else Some([EntryOf(tokens[0])] + rest.value)
  }

  lemma {:induction false} ReadSavedItems(order: seq<Entry>)
    ensures ReadItems(SavedTokens(order)) == Some(order)
  {
    if order != [] {
      ReadSavedItems(order[1..]);
      assert SavedTokens(order)[1..] == SavedTokens(order[1..]);
      assert [order[0]] + order[1..] == order;
    }
  }

  /** Round trip: an accepted order, once saved, reads back as the same order. */
  lemma SavedOrderReadsBack(items: seq<Token>, totalSlots: int)
    requires ValidateOrder(items, totalSlots).Ok?
    ensures ReadOrder(SavedTokens(ValidateOrder(items, totalSlots).value)) == Some(ValidateOrder(items, totalSlots).value)
  {
    ValidateOrderOk(items, totalSlots);
    ReadSavedItems(ValidateOrder(items, totalSlots).value);
  }

  /**
   * The position of the current slot in the order: the saved position when it is
   * in range and holds the current slot, otherwise the first position holding it,
   * otherwise -1.
   */
  method FindPosition(order: seq<Entry>, current: int, saved: int) returns (index: int)
    ensures -1 <= index < |order|
    ensures index == -1 <==> Slot(current) !in order
    ensures index != -1 ==> order[index] == Slot(current)
    ensures 0 <= saved < |order| && order[saved] == Slot(current) ==> index == saved
    ensures !(0 <= saved < |order| && order[saved] == Slot(current)) && index != -1 ==> Slot(current) !in order[..index]
  {
    if 0 <= saved < |order| && order[saved].Slot? && order[saved].slot == current {
      return saved;
    }
    index := -1;
    var i := 0;
    while i < |order|
      invariant 0 <= i <= |order|
      invariant Slot(current) !in order[..i]
    {
      if order[i].Slot? && order[i].slot == current {
        return i;
      }
      assert order[..i + 1] == order[..i] + [order[i]];
      i := i + 1;
    }
    assert order[..i] == order;
  }

  /** Position `k` of the order holds a slot that is ready. */
  predicate ReadyAt(order: seq<Entry>, ready: set<int>, k: int)
    requires 0 <= k < |order|
  {
    order[k].Slot? && order[k].slot in ready
  }

  /** The position visited at step `i` of the wrap-around search starting after `current`. */
  function Visit(current: int, i: int, n: int): int
    requires n > 0
  {
    (current + 1 + i) % n
  }

  /** Python's `%` on the search's step values, which lie in 0 .. 2n - 1. */
  lemma ModOnce(v: int, n: int)
    requires n > 0 && 0 <= v < 2 * n
    ensures v % n == (if v < n then v else v - n)
  {
    if v < n {
      assert v == 0 * n + v;
    } else {
      assert v == 1 * n + (v - n);
    }
  }

  /** Every position is visited by one of the steps 0 .. n - 1. */
  lemma VisitCovers(current: int, n: int, k: int) returns (j: int)
    requires -1 <= current < n && 0 <= k < n
    ensures 0 <= j < n && Visit(current, j, n) == k
  {
    j := if k > current then k - current - 1 else k - current - 1 + n;
    ModOnce(current + 1 + j, n);
  }

  /** The step at which the search reaches position `current` itself is the last one. */
  lemma VisitCurrentLast(current: int, n: int, i: int)
    requires 0 <= current < n && 0 <= i < n - 1
    ensures Visit(current, i, n) != current
  {
    ModOnce(current + 1 + i, n);
  }

  /**
   * The wrap-around search for the next ready slot: positions after `current`
   * first, wrapping to the start; empty positions are skipped. The answer is the
   * slot and its position.
   */
  method NextReady(order: seq<Entry>, current: int, ready: set<int>) returns (r: Option<(int, int)>)
    requires -1 <= current < |order|
    ensures r.Some? ==> var (slot, k) := r.value;
              0 <= k < |order| && order[k] == Slot(slot) && slot in ready &&
              exists i :: 0 <= i < |order| && Visit(current, i, |order|) == k &&
                          forall j :: 0 <= j < i ==> !ReadyAt(order, ready, Visit(current, j, |order|))
    ensures r.None? <==> forall k :: 0 <= k < |order| ==> !ReadyAt(order, ready, k)
  {
    var i := 0;
    while i < |order|
      invariant 0 <= i <= |order|
      invariant forall j :: 0 <= j < i ==> !ReadyAt(order, ready, Visit(current, j, |order|))
    {
      var nextIndex := (current + 1 + i) % |order|;
      var nextSlot := order[nextIndex];
      if nextSlot.Slot? && nextSlot.slot in ready {
        assert Visit(current, i, |order|) == nextIndex;
        return Some((nextSlot.slot, nextIndex));
      }
      i := i + 1;
    }
    forall k | 0 <= k < |order|
      ensures !ReadyAt(order, ready, k)
    {
      var j := VisitCovers(current, |order|, k);
    }
    return None;
  }

  /** The search lands on the current position only when no other position holds a ready slot. */
  lemma CurrentOnlyAsLastResort(order: seq<Entry>, current: int, ready: set<int>, i: int)
    requires 0 <= current < |order|
    requires 0 <= i < |order| && Visit(current, i, |order|) == current
    requires forall j :: 0 <= j < i ==> !ReadyAt(order, ready, Visit(current, j, |order|))
    ensures forall k :: 0 <= k < |order| && k != current ==> !ReadyAt(order, ready, k)
  {
    if i < |order| - 1 {
      VisitCurrentLast(current, |order|, i);
      assert false;
    }
    forall k | 0 <= k < |order| && k != current
      ensures !ReadyAt(order, ready, k)
    {
      var j := VisitCovers(current, |order|, k);
    }
  }
}
