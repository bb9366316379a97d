/** Genesis of the validator registry: x/validatorregistry/types/genesis.go
    (default state and validation) and keeper/genesis.go (load and dump).
    The module's `Params` type is not part of this model and is left as the
    type parameter `P`; its default value and its `Validate` are passed in. */
module RegistryGenesis {
  import opened Outcomes
  import opened KeyOrder
  import opened ValidatorStore

  datatype GenesisState<P> = GenesisState(params: P, validatorMap: seq<Validator>)

  /** The registry's stores: the params item and the validator collection. */
  datatype RegistryState<P> = RegistryState(params: Option<P>, validators: seq<Entry>)

  datatype GenesisError =
    | DuplicatedIndex
    | ParamsInvalid(reason: string)
    | ParamsNotFound
    | ValidatorUndecodable(key: string)

  function DefaultGenesis<P>(defaultParams: P): (g: GenesisState<P>)
    ensures g.params == defaultParams && |g.validatorMap| == 0
  {
    GenesisState(defaultParams, [])
  }

  /** Two entries of the list share an index. */
  predicate HasDuplicateIndex(vs: seq<Validator>) {
    exists i, j :: 0 <= i < j < |vs| && vs[i].index == vs[j].index
  }

  /** The validation loop: walks the list remembering the indices seen, and
      reports a duplicate at the first index seen before. */
  function DuplicateScan(vs: seq<Validator>, seen: set<string>): (dup: bool)
    ensures dup <==> HasDuplicateIndex(vs) || exists i :: 0 <= i < |vs| && vs[i].index in seen
  {
    if |vs| == 0 then false
    else if vs[0].index in seen then true
    else
      var rest := DuplicateScan(vs[1..], seen + {vs[0].index});
      assert rest ==> HasDuplicateIndex(vs) || exists i :: 0 <= i < |vs| && vs[i].index in seen by {
        if rest {
          if HasDuplicateIndex(vs[1..]) {
            var i, j :| 0 <= i < j < |vs[1..]| && vs[1..][i].index == vs[1..][j].index;
            assert vs[i + 1].index == vs[j + 1].index;
          } else {
            var i :| 0 <= i < |vs[1..]| && vs[1..][i].index in seen + {vs[0].index};
            assert vs[i + 1] == vs[1..][i];
            if vs[1..][i].index == vs[0].index {
              assert vs[0].index == vs[i + 1].index;
            }
          }
        }
      }
      assert HasDuplicateIndex(vs) ==> rest by {
        if HasDuplicateIndex(vs) {
          var i, j :| 0 <= i < j < |vs| && vs[i].index == vs[j].index;
          assert vs[1..][j - 1] == vs[j];
          if i > 0 {
            assert vs[1..][i - 1] == vs[i];
          }
        }
      }
      assert (exists i :: 0 <= i < |vs| && vs[i].index in seen) ==> rest by {
        if exists i :: 0 <= i < |vs| && vs[i].index in seen {
          var i :| 0 <= i < |vs| && vs[i].index in seen;
          assert vs[1..][i - 1] == vs[i];
        }
      }
      rest
  }

  /** `GenesisState.Validate`: a duplicated index is an error; otherwise the
      verdict is the params' own validation. */
  function Validate<P>(gs: GenesisState<P>, validateParams: P -> Option<string>): (r: Option<GenesisError>)
    ensures HasDuplicateIndex(gs.validatorMap) ==> r == Some(DuplicatedIndex)
    ensures !HasDuplicateIndex(gs.validatorMap) ==>
              r == (match validateParams(gs.params)
                    case None => None
                    case Some(reason) => Some(ParamsInvalid(reason)))
  {
    if DuplicateScan(gs.validatorMap, {}) then Some(DuplicatedIndex)
    else match validateParams(gs.params)
      case None => None
      case Some(reason) => Some(ParamsInvalid(reason))
  }

  /** The duplicate verdict depends only on which validators the list holds,
      not on their order. */
  lemma DuplicateVerdictIgnoresOrder(vs: seq<Validator>, ws: seq<Validator>)
    requires multiset(vs) == multiset(ws)
    ensures HasDuplicateIndex(vs) <==> HasDuplicateIndex(ws)
  {
    if HasDuplicateIndex(vs) { DuplicateSurvivesPermutation(vs, ws); }
    if HasDuplicateIndex(ws) { DuplicateSurvivesPermutation(ws, vs); }
  }

  lemma DuplicateSurvivesPermutation(vs: seq<Validator>, ws: seq<Validator>)
    requires multiset(vs) == multiset(ws) && HasDuplicateIndex(vs)
    ensures HasDuplicateIndex(ws)
  {
    var i, j :| 0 <= i < j < |vs| && vs[i].index == vs[j].index;
    if vs[i] == vs[j] {
      TwoPositionsCountTwice(vs, i, j);
      var a, b := CountedTwiceHasTwoPositions(ws, vs[i]);
      if a < b { assert ws[a].index == ws[b].index; } else { assert ws[b].index == ws[a].index; }
    } else {
      assert vs[i] in multiset(ws) && vs[j] in multiset(ws);
      var a :| 0 <= a < |ws| && ws[a] == vs[i];
      var b :| 0 <= b < |ws| && ws[b] == vs[j];
      if a < b { assert ws[a].index == ws[b].index; } else { assert ws[b].index == ws[a].index; }
    }
  }

  lemma TwoPositionsCountTwice(s: seq<Validator>, i: int, j: int)
    requires 0 <= i < j < |s| && s[i] == s[j]
    ensures multiset(s)[s[i]] >= 2
  {
    assert s == s[..j] + s[j..];
    assert s[i] == s[..j][i] && s[j] == s[j..][0];
    assert multiset(s) == multiset(s[..j]) + multiset(s[j..]);
  }

  lemma CountedTwiceHasTwoPositions(s: seq<Validator>, x: Validator) returns (a: int, b: int)
    requires multiset(s)[x] >= 2
    ensures 0 <= a < |s| && 0 <= b < |s| && a != b && s[a] == x && s[b] == x
  {
    assert x in multiset(s);
    a :| 0 <= a < |s| && s[a] == x;
    assert s == s[..a] + [x] + s[a + 1..];
    assert multiset(s) == multiset(s[..a]) + multiset([x]) + multiset(s[a + 1..]);
    if x in s[..a] {
      b :| 0 <= b < a && s[..a][b] == x;
    } else {
      assert x in multiset(s[a + 1..]);
      var c :| 0 <= c < |s[a + 1..]| && s[a + 1..][c] == x;
      b := a + 1 + c;
    }
  }

  /** The loading loop of `InitGenesis`: each element under its own index, in
      list order, so a later element overwrites an earlier one. */
  function Load(es: seq<Entry>, vs: seq<Validator>): (r: seq<Entry>)
    requires Sorted(es)
    ensures Sorted(r)
    decreases |vs|
  {
    if |vs| == 0 then es else Load(Set(es, vs[0].index, vs[0]), vs[1..])
  }

  /** `InitGenesis`; writing a validator or the params cannot fail here. */
  function InitGenesis<P>(st: RegistryState<P>, gs: GenesisState<P>): (r: RegistryState<P>)
    requires Sorted(st.validators)
    ensures Sorted(r.validators)
    ensures r.params == Some(gs.params)
  {
    RegistryState(Some(gs.params), Load(st.validators, gs.validatorMap))
  }

  /** The element of `vs` with index `k` that comes last, if any. */
  function LastWithIndex(vs: seq<Validator>, k: string): Option<Validator> {
    if |vs| == 0 then None
    else
      var later := LastWithIndex(vs[1..], k);
      if later.Some? then later
      else if vs[0].index == k then Some(vs[0])
      else None
  }

  /** After loading, each index holds the last element carrying it; indices
      the list does not mention keep what the store held. */
  lemma {:induction false} LoadLastWins(es: seq<Entry>, vs: seq<Validator>, k: string)
    requires Sorted(es)
    ensures Find(Load(es, vs), k) ==
            match LastWithIndex(vs, k)
            case Some(v) => Some(Decoded(v))
            case None => Find(es, k)
    decreases |vs|
  {
    if |vs| > 0 {
      LoadLastWins(Set(es, vs[0].index, vs[0]), vs[1..], k);
      SetThenFind(es, vs[0].index, vs[0], k);
    }
  }

  /** `ExportGenesis`: the params and every stored validator in key order; a
      missing params item or an undecodable validator is an error. */
  function ExportGenesis<P>(st: RegistryState<P>): (r: Result<GenesisState<P>, GenesisError>)
    ensures st.params.None? ==> r == Err(ParamsNotFound)
    ensures r.Ok? <==> st.params.Some? && AllDecoded(st.validators)
    ensures r.Ok? ==> r.value.params == st.params.value
                      && |r.value.validatorMap| == |st.validators|
                      && forall i :: 0 <= i < |st.validators| ==>
                           st.validators[i].stored == Decoded(r.value.validatorMap[i])
  {
    match st.params
    case None => Err(ParamsNotFound)
    case Some(p) =>
      match DecodeAll(st.validators)
      case Err(k) => Err(ValidatorUndecodable(k))
      case Ok(vs) => Ok(GenesisState(p, vs))
  }

  /** The list in strictly ascending index order. */
  predicate StrictlyAscending(vs: seq<Validator>) {
    forall i, j :: 0 <= i < j < |vs| ==> Less(vs[i].index, vs[j].index)
  }

  /** The entries a store holds for a list stored under its own indices. */
  function EntriesOf(vs: seq<Validator>): (es: seq<Entry>)
    ensures |es| == |vs|
    ensures forall i :: 0 <= i < |vs| ==> es[i] == Entry(vs[i].index, Decoded(vs[i]))
  {
    if |vs| == 0 then [] else [Entry(vs[0].index, Decoded(vs[0]))] + EntriesOf(vs[1..])
  }

  /** Loading indices that are ascending and above every stored key appends. */
  lemma {:induction false} LoadAppends(es: seq<Entry>, vs: seq<Validator>)
    requires Sorted(es) && StrictlyAscending(vs)
    requires |vs| > 0 ==> forall i :: 0 <= i < |es| ==> Less(es[i].key, vs[0].index)
    ensures Load(es, vs) == es + EntriesOf(vs)
    decreases |vs|
  {
    if |vs| > 0 {
      var e := Entry(vs[0].index, Decoded(vs[0]));
      LoadStepAppends(es, vs);
      StillBelow(es, vs);
      LoadAppends(es + [e], vs[1..]);
      EntriesStep(es, vs);
    }
  }

  lemma EntriesStep(es: seq<Entry>, vs: seq<Validator>)
    requires |vs| > 0
    ensures (es + [Entry(vs[0].index, Decoded(vs[0]))]) + EntriesOf(vs[1..]) == es + EntriesOf(vs)
  {
    var lhs := (es + [Entry(vs[0].index, Decoded(vs[0]))]) + EntriesOf(vs[1..]);
    var rhs := es + EntriesOf(vs);
    assert |lhs| == |rhs|;
    forall i | 0 <= i < |lhs| ensures lhs[i] == rhs[i] {
      if i > |es| {
        assert vs[1..][i - |es| - 1] == vs[i - |es|];
      }
    }
  }

  lemma LoadStepAppends(es: seq<Entry>, vs: seq<Validator>)
    requires Sorted(es) && |vs| > 0
    requires forall i :: 0 <= i < |es| ==> Less(es[i].key, vs[0].index)
    ensures Sorted(es + [Entry(vs[0].index, Decoded(vs[0]))])
    ensures Load(es, vs) == Load(es + [Entry(vs[0].index, Decoded(vs[0]))], vs[1..])
  {
    SetAppends(es, vs[0]);
  }

  lemma StillBelow(es: seq<Entry>, vs: seq<Validator>)
    requires |vs| > 0 && StrictlyAscending(vs)
    requires forall i :: 0 <= i < |es| ==> Less(es[i].key, vs[0].index)
    ensures StrictlyAscending(vs[1..])
    ensures |vs| > 1 ==>
              var es' := es + [Entry(vs[0].index, Decoded(vs[0]))];
              forall i :: 0 <= i < |es'| ==> Less(es'[i].key, vs[1..][0].index)
  {
    if |vs| > 1 {
      var es' := es + [Entry(vs[0].index, Decoded(vs[0]))];
      forall i | 0 <= i < |es'| ensures Less(es'[i].key, vs[1].index) {
        if i < |es| {
          assert es'[i] == es[i];
          LessTransitive(es[i].key, vs[0].index, vs[1].index);
        }
      }
    }
    forall i, j | 0 <= i < j < |vs| - 1 ensures Less(vs[1..][i].index, vs[1..][j].index) {
      assert vs[1..][i] == vs[i + 1] && vs[1..][j] == vs[j + 1];
    }
  }

  lemma {:induction false} SetAppends(es: seq<Entry>, v: Validator)
    requires Sorted(es)
    requires forall i :: 0 <= i < |es| ==> Less(es[i].key, v.index)
    ensures Set(es, v.index, v) == es + [Entry(v.index, Decoded(v))]
    decreases |es|
  {
    if |es| > 0 {
      LessAsymmetric(es[0].key, v.index);
      LessIrreflexive(v.index);
      SortedTail(es);
      SetAppends(es[1..], v);
    }
  }

  /** Init-then-export round trip from an empty store: a genesis state whose
      indices are distinct and listed in key order comes back unchanged. */
  lemma GenesisRoundTrip<P>(gs: GenesisState<P>)
    requires StrictlyAscending(gs.validatorMap)
    ensures ExportGenesis(InitGenesis(RegistryState(None, []), gs)) == Ok(gs)
  {
    LoadAppends([], gs.validatorMap);
    var st := InitGenesis(RegistryState(None, []), gs);
    assert st.validators == EntriesOf(gs.validatorMap);
    var r := ExportGenesis(st);
    assert r.Ok?;
    assert r.value.validatorMap == gs.validatorMap;
  }
}
