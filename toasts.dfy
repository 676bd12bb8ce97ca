/** The notification list: `addToast` appends an entry, and the entry's timer
    later filters out every entry with its id. Ids are given by the caller;
    the timer is replaced by an explicit removal. */
module Toasts {

  datatype Kind = Success | Error

  datatype Toast = Toast(id: nat, message: string, kind: Kind)

  /** `a` is `b` with some entries left out, the rest in the same order. */
  ghost predicate SubsequenceOf(a: seq<Toast>, b: seq<Toast>)
    decreases |b|
  {
    if a == [] then true
    else if b == [] then false
    else if a[0] == b[0] then SubsequenceOf(a[1..], b[1..])
    else SubsequenceOf(a, b[1..])
  }

  /** `t.filter((x) => x.id !== id)`. */
  function RemoveById(toasts: seq<Toast>, id: nat): (r: seq<Toast>)
    ensures |r| <= |toasts|
    ensures forall i :: 0 <= i < |r| ==> r[i].id != id
  {
    if toasts == [] then []
    else if toasts[0].id == id then RemoveById(toasts[1..], id)
    else [toasts[0]] + RemoveById(toasts[1..], id)
  }

  /** The filter keeps every entry with another id, as often as it occurs,
      and drops every entry with this id. */
  lemma {:induction false} RemoveByIdCounts(toasts: seq<Toast>, id: nat, t: Toast)
    ensures multiset(RemoveById(toasts, id))[t] == if t.id == id then 0 else multiset(toasts)[t]
  {
    if toasts != [] {
      assert toasts == [toasts[0]] + toasts[1..];
      RemoveByIdCounts(toasts[1..], id, t);
    }
  }

  /** The entries the filter keeps are in their original order. */
  lemma {:induction false} RemoveByIdKeepsOrder(toasts: seq<Toast>, id: nat)
    ensures SubsequenceOf(RemoveById(toasts, id), toasts)
  {
    if toasts != [] {
      RemoveByIdKeepsOrder(toasts[1..], id);
      var rest := RemoveById(toasts[1..], id);
      if toasts[0].id == id {
        SubsequenceSkip(rest, toasts);
      } else {
        assert ([toasts[0]] + rest)[1..] == rest;
      }
    }
  }

  lemma SubsequenceSkip(a: seq<Toast>, b: seq<Toast>)
    requires b != [] && SubsequenceOf(a, b[1..])
    ensures SubsequenceOf(a, b)
    decreases |b|, 0
  {
    if a != [] && a[0] == b[0] {
      SubsequenceAfterHead(a, b[1..]);
    }
  }

  lemma SubsequenceAfterHead(a: seq<Toast>, b: seq<Toast>)
    requires a != [] && SubsequenceOf(a, b)
    ensures SubsequenceOf(a[1..], b)
    decreases |b|, 1
  {
    if a[0] != b[0] {
      SubsequenceAfterHead(a, b[1..]);
      SubsequenceSkip(a[1..], b);
    } else if a[1..] != [] {
      SubsequenceSkip(a[1..], b);
    }
  }

  /** The removal the timer of a freshly added toast performs gives back the
      list as it was before the toast was added. */
  lemma {:induction false} AddThenRemoveRestores(toasts: seq<Toast>, t: Toast)
    requires forall i :: 0 <= i < |toasts| ==> toasts[i].id != t.id
    ensures RemoveById(toasts + [t], t.id) == toasts
  {
    if toasts != [] {
      assert (toasts + [t])[1..] == toasts[1..] + [t];
      AddThenRemoveRestores(toasts[1..], t);
    }
  }

  /** Removing an id that no entry carries changes nothing. */
  lemma {:induction false} RemoveAbsentId(toasts: seq<Toast>, id: nat)
    requires forall i :: 0 <= i < |toasts| ==> toasts[i].id != id
    ensures RemoveById(toasts, id) == toasts
  {
    if toasts != [] {
      RemoveAbsentId(toasts[1..], id);
    }
  }

  /** Timers of different toasts may fire in either order with the same result. */
  lemma {:induction false} RemovalsCommute(toasts: seq<Toast>, a: nat, b: nat)
    ensures RemoveById(RemoveById(toasts, a), b) == RemoveById(RemoveById(toasts, b), a)
  {
    if toasts != [] {
      RemovalsCommute(toasts[1..], a, b);
    }
  }

  /** Removing an entry keeps every entry added after it, in order: a toast
      removed from the middle does not disturb the others. */
  lemma {:induction false} RemoveDistributes(xs: seq<Toast>, ys: seq<Toast>, id: nat)
    ensures RemoveById(xs + ys, id) == RemoveById(xs, id) + RemoveById(ys, id)
  {
    if xs == [] {
      assert xs + ys == ys;
    } else {
      assert (xs + ys)[1..] == xs[1..] + ys;
      RemoveDistributes(xs[1..], ys, id);
    }
  }
}
