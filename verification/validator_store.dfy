/** The validator registry's `Validator` collection: a map from string index
    to validator, iterated in key order. It is held as the list of entries in
    ascending key order, so that walks and exports have the order the store
    gives them. A stored value that cannot be decoded is kept as such: it is
    what makes reads and walks fail. */
module ValidatorStore {
  import opened Ints
  import opened Outcomes
  import opened KeyOrder

  datatype Validator = Validator(
    index: string,
    memberId: string,
    operatorAddress: string,
    consensusPubkey: string,
    status: string,
    termEnd: uint64)

  datatype Stored = Decoded(validator: Validator) | Undecodable

  datatype Entry = Entry(key: string, stored: Stored)

  ghost predicate Sorted(es: seq<Entry>) {
    forall i, j :: 0 <= i < j < |es| ==> Less(es[i].key, es[j].key)
  }

  predicate HasKey(es: seq<Entry>, key: string) {
    exists i :: 0 <= i < |es| && es[i].key == key
  }

  /** Every stored value decodes. */
  predicate AllDecoded(es: seq<Entry>) {
    forall i :: 0 <= i < |es| ==> es[i].stored.Decoded?
  }

  /** `Get` / `Has` at the bytes level: the stored value under `key`, if any. */
  function Find(es: seq<Entry>, key: string): (r: Option<Stored>)
    ensures r.Some? <==> HasKey(es, key)
    ensures r.Some? ==> exists i :: 0 <= i < |es| && es[i] == Entry(key, r.value)
  {
    if |es| == 0 then None
    else if es[0].key == key then Some(es[0].stored)
    else
      var r := Find(es[1..], key);
      assert HasKey(es, key) ==> HasKey(es[1..], key) by {
        if HasKey(es, key) {
          var i :| 0 <= i < |es| && es[i].key == key;
          assert es[1..][i - 1].key == key;
        }
      }
      r
  }

  /** `Validator.Set(index, v)`: inserts or overwrites, keeping key order. */
  function Set(es: seq<Entry>, key: string, v: Validator): (r: seq<Entry>)
    requires Sorted(es)
    ensures Sorted(r)
    ensures forall i :: 0 <= i < |r| ==> r[i].key == key || HasKey(es, r[i].key)
    ensures AllDecoded(es) ==> AllDecoded(r)
    ensures |r| == if HasKey(es, key) then |es| else |es| + 1
  {
    var e := Entry(key, Decoded(v));
    if |es| == 0 then [e]
    else if es[0].key == key then
      SortedTail(es);
      HeadBelowTail(es);
      assert !HasKey(es[1..], key) by { LessIrreflexive(key); }
      SortedCons(e, es[1..]);
      [e] + es[1..]
    else if Less(key, es[0].key) then
      HeadBelowTail(es);
      assert forall i :: 0 <= i < |es| ==> Less(key, es[i].key) by {
        forall i | 0 <= i < |es| ensures Less(key, es[i].key) {
          if i > 0 {
            LessTransitive(key, es[0].key, es[i].key);
          }
        }
      }
      assert !HasKey(es, key) by { LessIrreflexive(key); }
      SortedCons(e, es);
      [e] + es
    else
      LessTotal(key, es[0].key);
      SortedTail(es);
      HeadBelowTail(es);
      var rest := Set(es[1..], key, v);
      KeysOfTail(es, key);
      assert forall i :: 0 <= i < |rest| ==> rest[i].key == key || HasKey(es, rest[i].key) by {
        forall i | 0 <= i < |rest| ensures rest[i].key == key || HasKey(es, rest[i].key) {
          KeysOfTail(es, rest[i].key);
        }
      }
      assert forall i :: 0 <= i < |rest| ==> Less(es[0].key, rest[i].key) by {
        forall i | 0 <= i < |rest| ensures Less(es[0].key, rest[i].key) {
          KeysOfTail(es, rest[i].key);
        }
      }
      SortedCons(es[0], rest);
      [es[0]] + rest
  }

  /** After `Set(key, v)` the store reads `v` under `key`, and reads as before
      under every other key. */
  lemma {:induction false} SetThenFind(es: seq<Entry>, key: string, v: Validator, k: string)
    requires Sorted(es)
    ensures Find(Set(es, key, v), k) == if k == key then Some(Decoded(v)) else Find(es, k)
    decreases |es|
  {
    if |es| > 0 && es[0].key != key && !Less(key, es[0].key) {
      SortedTail(es);
      SetThenFind(es[1..], key, v, k);
    }
  }

  lemma SetThenFindAll(es: seq<Entry>, key: string, v: Validator)
    requires Sorted(es)
    ensures Find(Set(es, key, v), key) == Some(Decoded(v))
    ensures forall k :: k != key ==> Find(Set(es, key, v), k) == Find(es, k)
  {
    forall k {
      SetThenFind(es, key, v, k);
    }
  }

  lemma SortedTail(es: seq<Entry>)
    requires Sorted(es) && |es| > 0
    ensures Sorted(es[1..])
  {
    forall i, j | 0 <= i < j < |es| - 1 ensures Less(es[1..][i].key, es[1..][j].key) {
      assert es[1..][i] == es[i + 1] && es[1..][j] == es[j + 1];
    }
  }

  lemma HeadBelowTail(es: seq<Entry>)
    requires Sorted(es) && |es| > 0
    ensures forall i :: 1 <= i < |es| ==> Less(es[0].key, es[i].key)
    ensures forall k :: HasKey(es[1..], k) ==> Less(es[0].key, k)
  {
    forall k | HasKey(es[1..], k) ensures Less(es[0].key, k) {
      var i :| 0 <= i < |es[1..]| && es[1..][i].key == k;
      assert es[i + 1].key == k;
    }
  }

  lemma KeysOfTail(es: seq<Entry>, k: string)
    requires |es| > 0
    ensures HasKey(es, k) <==> es[0].key == k || HasKey(es[1..], k)
  {
    if HasKey(es, k) && es[0].key != k {
      var i :| 0 <= i < |es| && es[i].key == k;
      assert es[1..][i - 1].key == k;
    }
    if HasKey(es[1..], k) {
      var i :| 0 <= i < |es[1..]| && es[1..][i].key == k;
      assert es[i + 1].key == k;
    }
  }

  lemma SortedCons(e: Entry, es: seq<Entry>)
    requires Sorted(es)
    requires forall i :: 0 <= i < |es| ==> Less(e.key, es[i].key)
    ensures Sorted([e] + es)
  {
    var r := [e] + es;
    forall i, j | 0 <= i < j < |r| ensures Less(r[i].key, r[j].key) {
      if i > 0 {
        assert r[i] == es[i - 1] && r[j] == es[j - 1];
      } else {
        assert r[j] == es[j - 1];
      }
    }
  }

  /** A walk over all entries that decodes each value: every validator in key
      order, or the key of the first value that does not decode. */
  function DecodeAll(es: seq<Entry>): (r: Result<seq<Validator>, string>)
    ensures r.Ok? <==> AllDecoded(es)
    ensures r.Ok? ==> |r.value| == |es|
                      && forall i :: 0 <= i < |es| ==> es[i].stored == Decoded(r.value[i])
    ensures r.Err? ==> exists i :: 0 <= i < |es| && es[i] == Entry(r.error, Undecodable)
                                   && AllDecoded(es[..i])
  {
    if |es| == 0 then Ok([])
    else match es[0].stored
      case Undecodable =>
        assert es[..0] == [];
        Err(es[0].key)
      case Decoded(v) =>
        match DecodeAll(es[1..])
        case Err(k) =>
          var i :| 0 <= i < |es[1..]| && es[1..][i] == Entry(k, Undecodable) && AllDecoded(es[1..][..i]);
          assert es[..i + 1] == [es[0]] + es[1..][..i];
          Err(k)
        case Ok(vs) => Ok([v] + vs)
  }
}
