/** The C# Dictionary<string, V> as the parser uses it: entries are only ever added, so
    enumeration and ElementAt follow insertion order, and Add rejects a key that is
    already present. */
module Dictionaries {
  import opened Wrappers

  datatype Entry<V> = Entry(key: string, value: V)

  /** The entries of a dictionary in insertion order. */
  type Dict<V> = seq<Entry<V>>

  function Keys<V>(d: Dict<V>): (ks: seq<string>)
    ensures |ks| == |d| && forall i :: 0 <= i < |d| ==> ks[i] == d[i].key
  {
    seq(|d|, i requires 0 <= i < |d| => d[i].key)
  }

  /** The values of a dictionary in insertion order. */
  function Values<V>(d: Dict<V>): (vs: seq<V>)
    ensures |vs| == |d| && forall i :: 0 <= i < |d| ==> vs[i] == d[i].value
  {
    seq(|d|, i requires 0 <= i < |d| => d[i].value)
  }

  predicate HasKey<V>(d: Dict<V>, k: string) {
    exists i :: 0 <= i < |d| && d[i].key == k
  }

  predicate DistinctKeys<V>(d: Dict<V>) {
    forall i, j :: 0 <= i < j < |d| ==> d[i].key != d[j].key
  }

  /** The indexer d[k]: the value stored under k, None where C# throws KeyNotFoundException. */
  function Lookup<V>(d: Dict<V>, k: string): (r: Option<V>)
    ensures r.None? <==> !HasKey(d, k)
    ensures r.Some? ==> exists i :: 0 <= i < |d| && d[i] == Entry(k, r.value)
  {
    if d == [] then None
    else if d[0].key == k then Some(d[0].value)
    else
      var r := Lookup(d[1..], k);
      assert r.Some? ==> exists i :: 1 <= i < |d| && d[i] == Entry(k, r.value) by {
        if r.Some? {
          var i :| 0 <= i < |d[1..]| && d[1..][i] == Entry(k, r.value);
          assert d[i + 1] == d[1..][i];
        }
      }
      r
  }

  /** The dictionary after a run of Adds, and the exception that ended the run, if any. */
  datatype Built<V> = Built(dict: Dict<V>, fault: Option<Fault>)

  /** A loop of Dictionary.Add over the items xs, starting from d. Each item throws, is
      skipped, or yields an entry to add. When `reachable` is false the dictionary itself
      cannot be reached (the ElementAt that selects it throws), so the first entry throws.
      The first exception ends the run and keeps the entries added before it. */
  function AddAll<T, V>(d: Dict<V>, reachable: bool, xs: seq<T>, f: T -> Result<Option<Entry<V>>, Fault>): Built<V>
    decreases |xs|
  {
    if xs == [] then Built(d, None)
    else
      var b := AddAll(d, reachable, xs[..|xs| - 1], f);
      if b.fault.Some? then b
      else match f(xs[|xs| - 1])
        case Failure(err) => Built(b.dict, Some(err))
        case Success(None) => b
        case Success(Some(e)) =>
          if !reachable then Built(b.dict, Some(OutOfRange))
          else if HasKey(b.dict, e.key) then Built(b.dict, Some(DuplicateKey(e.key)))
          else Built(b.dict + [e], None)
  }

  /** The entry one item yields, if any. */
  function Yield<T, V>(f: T -> Result<Option<Entry<V>>, Fault>, x: T): seq<Entry<V>> {
    match f(x) case Success(Some(e)) => [e] case _ => []
  }

  /** The entries the items yield, in order. */
  function Accepted<T, V>(xs: seq<T>, f: T -> Result<Option<Entry<V>>, Fault>): seq<Entry<V>>
    decreases |xs|
  {
    if xs == [] then [] else Accepted(xs[..|xs| - 1], f) + Yield(f, xs[|xs| - 1])
  }

  /** No item throws while it is read. */
  predicate NoneThrows<T, V>(xs: seq<T>, f: T -> Result<Option<Entry<V>>, Fault>) {
    forall i :: 0 <= i < |xs| ==> f(xs[i]).Success?
  }

  /** Add never overwrites: the entries present before the run stay in place, and keys
      stay distinct. A dictionary that cannot be reached is left as it was. */
  lemma {:induction false} AddAllKeepsEntries<T, V>(d: Dict<V>, reachable: bool, xs: seq<T>, f: T -> Result<Option<Entry<V>>, Fault>)
    ensures var b := AddAll(d, reachable, xs, f); |d| <= |b.dict| && b.dict[..|d|] == d
    ensures DistinctKeys(d) ==> DistinctKeys(AddAll(d, reachable, xs, f).dict)
    ensures !reachable ==> AddAll(d, reachable, xs, f).dict == d
  {
    if xs != [] {
      AddAllKeepsEntries(d, reachable, xs[..|xs| - 1], f);
      var b := AddAll(d, reachable, xs[..|xs| - 1], f);
      if b.fault.None? && f(xs[|xs| - 1]).Success? && f(xs[|xs| - 1]).value.Some? {
        var e := f(xs[|xs| - 1]).value.value;
        assert (b.dict + [e])[..|d|] == b.dict[..|d|];
      }
    }
  }

  /** A duplicate key is reported only for a key that is already stored, whose entry is
      kept, when reading the items never throws a duplicate of its own. */
  lemma {:induction false} DuplicateIsAlreadyStored<T, V>(d: Dict<V>, xs: seq<T>, f: T -> Result<Option<Entry<V>>, Fault>)
    requires forall i :: 0 <= i < |xs| && f(xs[i]).Failure? ==> !f(xs[i]).error.DuplicateKey?
    ensures var b := AddAll(d, true, xs, f);
      b.fault.Some? && b.fault.value.DuplicateKey? ==> HasKey(b.dict, b.fault.value.key)
  {
    if xs != [] {
      var xs' := xs[..|xs| - 1];
      assert forall i :: 0 <= i < |xs'| ==> xs'[i] == xs[i];
      DuplicateIsAlreadyStored(d, xs', f);
    }
  }

  lemma {:induction false} AddAllSucceedsOnlyIf<T, V>(d: Dict<V>, xs: seq<T>, f: T -> Result<Option<Entry<V>>, Fault>)
    requires DistinctKeys(d) && AddAll(d, true, xs, f).fault.None?
    ensures NoneThrows(xs, f) && DistinctKeys(d + Accepted(xs, f))
    ensures AddAll(d, true, xs, f).dict == d + Accepted(xs, f)
  {
    if xs != [] {
      var xs' := xs[..|xs| - 1];
      var x := xs[|xs| - 1];
      var b := AddAll(d, true, xs', f);
      assert b.fault.None?;
      AddAllSucceedsOnlyIf(d, xs', f);
      AddAllKeepsEntries(d, true, xs', f);
      assert d + Accepted(xs, f) == b.dict + Yield(f, x);
      forall i | 0 <= i < |xs| ensures f(xs[i]).Success? {
        if i < |xs'| { assert xs[i] == xs'[i]; }
      }
    }
  }

  lemma {:induction false} AddAllSucceedsIf<T, V>(d: Dict<V>, xs: seq<T>, f: T -> Result<Option<Entry<V>>, Fault>)
    requires NoneThrows(xs, f) && DistinctKeys(d + Accepted(xs, f))
    ensures AddAll(d, true, xs, f).fault.None?
  {
    if xs != [] {
      var xs' := xs[..|xs| - 1];
      var x := xs[|xs| - 1];
      var acc := d + Accepted(xs, f);
      var acc' := d + Accepted(xs', f);
      assert acc == acc' + Yield(f, x);
      assert acc[..|acc'|] == acc';
      assert forall i :: 0 <= i < |xs'| ==> xs'[i] == xs[i];
      AddAllSucceedsIf(d, xs', f);
      assert acc[..|d|] == d;
      AddAllSucceedsOnlyIf(d, xs', f);
      var b := AddAll(d, true, xs', f);
      if f(x).value.Some? {
        var e := f(x).value.value;
        assert acc == b.dict + [e];
        forall i | 0 <= i < |b.dict| ensures b.dict[i].key != e.key {
          assert acc[i] == b.dict[i] && acc[|acc| - 1] == e;
        }
      }
    }
  }

  /** A run that reads every item succeeds exactly when the keys it adds are new and
      distinct; it then appends the yielded entries in item order. */
  lemma AddAllSucceedsIff<T, V>(d: Dict<V>, xs: seq<T>, f: T -> Result<Option<Entry<V>>, Fault>)
    requires DistinctKeys(d)
    ensures AddAll(d, true, xs, f).fault.None? <==> NoneThrows(xs, f) && DistinctKeys(d + Accepted(xs, f))
    ensures AddAll(d, true, xs, f).fault.None? ==> AddAll(d, true, xs, f).dict == d + Accepted(xs, f)
  {
    if AddAll(d, true, xs, f).fault.None? {
      AddAllSucceedsOnlyIf(d, xs, f);
    } else if NoneThrows(xs, f) && DistinctKeys(d + Accepted(xs, f)) {
      AddAllSucceedsIf(d, xs, f);
    }
  }

  /** Reading one more item. */
  lemma AddAllSnoc<T, V>(d: Dict<V>, reachable: bool, xs: seq<T>, x: T, f: T -> Result<Option<Entry<V>>, Fault>)
    requires AddAll(d, reachable, xs, f).fault.None?
    ensures var b := AddAll(d, reachable, xs, f);
      AddAll(d, reachable, xs + [x], f) ==
        match f(x)
        case Failure(err) => Built(b.dict, Some(err))
        case Success(None) => b
        case Success(Some(e)) =>
          if !reachable then Built(b.dict, Some(OutOfRange))
          else if HasKey(b.dict, e.key) then Built(b.dict, Some(DuplicateKey(e.key)))
          else Built(b.dict + [e], None)
  {
    assert (xs + [x])[..|xs|] == xs;
  }

  /** After the first exception, further items change nothing. */
  lemma {:induction false} AddAllStopsAtFault<T, V>(d: Dict<V>, reachable: bool, xs: seq<T>, ys: seq<T>, f: T -> Result<Option<Entry<V>>, Fault>)
    requires AddAll(d, reachable, xs, f).fault.Some?
    ensures AddAll(d, reachable, xs + ys, f) == AddAll(d, reachable, xs, f)
  {
    if ys == [] {
      assert xs + ys == xs;
    } else {
      AddAllStopsAtFault(d, reachable, xs, ys[..|ys| - 1], f);
      assert (xs + ys)[..|xs + ys| - 1] == xs + ys[..|ys| - 1];
    }
  }

  /** When no item throws and the dictionary can be reached, the only exception is a
      duplicate key. */
  lemma {:induction false} AddAllFaultIsDuplicate<T, V>(d: Dict<V>, xs: seq<T>, f: T -> Result<Option<Entry<V>>, Fault>)
    requires NoneThrows(xs, f)
    ensures var b := AddAll(d, true, xs, f); b.fault.Some? ==> b.fault.value.DuplicateKey?
  {
    if xs != [] {
      var xs' := xs[..|xs| - 1];
      assert forall i :: 0 <= i < |xs'| ==> xs'[i] == xs[i];
      AddAllFaultIsDuplicate(d, xs', f);
    }
  }

  /** Every entry added is an entry some item yields: a property of all such entries holds
      of every entry added. */
  lemma {:induction false} AddAllAddsYielded<T, V>(d: Dict<V>, reachable: bool, xs: seq<T>,
                                                   f: T -> Result<Option<Entry<V>>, Fault>, p: Entry<V> -> bool)
    requires forall j :: 0 <= j < |xs| && f(xs[j]).Success? && f(xs[j]).value.Some? ==> p(f(xs[j]).value.value)
    ensures forall i :: |d| <= i < |AddAll(d, reachable, xs, f).dict| ==> p(AddAll(d, reachable, xs, f).dict[i])
  {
    if xs != [] {
      var xs' := xs[..|xs| - 1];
      assert forall j :: 0 <= j < |xs'| ==> xs'[j] == xs[j];
      AddAllAddsYielded(d, reachable, xs', f, p);
    }
  }

  /** A run whose dictionary cannot be reached succeeds exactly when no item throws and
      none yields an entry. */
  lemma {:induction false} AddAllUnreachable<T, V>(d: Dict<V>, xs: seq<T>, f: T -> Result<Option<Entry<V>>, Fault>)
    ensures AddAll(d, false, xs, f).fault.None? <==> NoneThrows(xs, f) && Accepted(xs, f) == []
  {
    if xs != [] {
      var xs' := xs[..|xs| - 1];
      assert forall i :: 0 <= i < |xs'| ==> xs'[i] == xs[i];
      AddAllUnreachable(d, xs', f);
      if NoneThrows(xs, f) {
        assert NoneThrows(xs', f);
      }
    }
  }
}
