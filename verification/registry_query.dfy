/** The registry's read path, x/validatorregistry/keeper/query_validator.go:
    a single validator by index, and the paginated list. */
module RegistryQuery {
  import opened Outcomes
  import opened ValidatorStore
  import RegistryKeeper

  datatype Code = InvalidArgument | NotFound | Internal

  datatype Status = Status(code: Code, message: string)

  datatype QueryGetValidatorRequest = QueryGetValidatorRequest(index: string)

  /** A page request from the start of the collection: `limit` 0 means the
      SDK's default limit, and then the total is always counted. */
  datatype PageRequest = PageRequest(limit: nat, countTotal: bool)

  datatype QueryAllValidatorRequest = QueryAllValidatorRequest(pagination: Option<PageRequest>)

  datatype QueryAllValidatorResponse = QueryAllValidatorResponse(validators: seq<Validator>, total: nat)

  /** `query.DefaultLimit` of the SDK. */
  const DefaultLimit: nat := 100

  /** `GetValidator`; a missing request (nil in Go) is `None`. */
  function GetValidator(es: seq<Entry>, req: Option<QueryGetValidatorRequest>): (r: Result<Validator, Status>)
    ensures req.None? ==> r == Err(Status(InvalidArgument, "invalid request"))
    ensures r.Ok? ==> req.Some? && exists i :: 0 <= i < |es| && es[i] == Entry(req.value.index, Decoded(r.value))
    ensures req.Some? && (exists i :: 0 <= i < |es| && es[i].key == req.value.index && es[i].stored.Decoded?) ==> r.Ok?
    ensures req.Some? && !HasKey(es, req.value.index) ==> r == Err(Status(NotFound, "not found"))
    ensures req.Some? && Find(es, req.value.index) == Some(Undecodable) ==> r == Err(Status(Internal, "internal error"))
    requires Sorted(es)
  {
    match req
    case None => Err(Status(InvalidArgument, "invalid request"))
    case Some(q) =>
      match Find(es, q.index)
      case None => Err(Status(NotFound, "not found"))
      case Some(Undecodable) =>
        KeysAreUnique(es, q.index);
        Err(Status(Internal, "internal error"))
      case Some(Decoded(v)) =>
        KeysAreUnique(es, q.index);
        Ok(v)
  }

  lemma KeysAreUnique(es: seq<Entry>, key: string)
    requires Sorted(es)
    ensures forall i, j :: 0 <= i < |es| && 0 <= j < |es| && es[i].key == key && es[j].key == key ==> i == j
  {
    forall i, j | 0 <= i < |es| && 0 <= j < |es| && es[i].key == key && es[j].key == key ensures i == j {
      if i != j {
        KeyOrder.LessIrreflexive(key);
      }
    }
  }

  /** A validator just onboarded is returned by `GetValidator` under its member id. */
  lemma GetAfterOnboard(es: seq<Entry>, msg: RegistryKeeper.MsgOnboardValidator,
                        isAccAddress: string -> bool, isValoperAddress: string -> bool)
    requires Sorted(es)
    requires RegistryKeeper.OnboardValidator(es, msg, isAccAddress, isValoperAddress).Succeeded()
    ensures
      var stored := RegistryKeeper.OnboardValidator(es, msg, isAccAddress, isValoperAddress).state;
      GetValidator(stored, Some(QueryGetValidatorRequest(msg.memberId)))
      == Ok(RegistryKeeper.OnboardedRecord(msg))
  {
    var stored := RegistryKeeper.OnboardValidator(es, msg, isAccAddress, isValoperAddress).state;
    assert Find(stored, msg.memberId) == Some(Decoded(RegistryKeeper.OnboardedRecord(msg)));
  }

  function Min(a: nat, b: nat): nat {
    if a <= b then a else b
  }

  /** `ListValidator` over `CollectionPaginate`, for requests that start at
      the beginning of the collection: the first `limit` validators in key
      order, and the number of stored validators when the total is counted. */
  function ListValidator(es: seq<Entry>, req: Option<QueryAllValidatorRequest>)
    : (r: Result<QueryAllValidatorResponse, Status>)
    ensures req.None? ==> r == Err(Status(InvalidArgument, "invalid request"))
    ensures r.Ok? ==>
              var page := req.value.pagination.GetOr(PageRequest(0, false));
              var limit := if page.limit == 0 then DefaultLimit else page.limit;
              |r.value.validators| == Min(limit, |es|)
              && (forall i :: 0 <= i < |r.value.validators| ==>
                    es[i].stored == Decoded(r.value.validators[i]))
              && r.value.total == (if page.limit == 0 || page.countTotal then |es| else 0)
    ensures req.Some? ==>
              var page := req.value.pagination.GetOr(PageRequest(0, false));
              var limit := if page.limit == 0 then DefaultLimit else page.limit;
              (r.Ok? <==> AllDecoded(es[..Min(limit, |es|)]))
    ensures req.Some? && AllDecoded(es) ==> r.Ok?
    ensures r.Err? && req.Some? ==> r.error.code == Internal
  {
    match req
    case None => Err(Status(InvalidArgument, "invalid request"))
    case Some(q) =>
      var page := q.pagination.GetOr(PageRequest(0, false));
      var limit := if page.limit == 0 then DefaultLimit else page.limit;
      var countTotal := page.limit == 0 || page.countTotal;
      var window := es[..Min(limit, |es|)];
      assert AllDecoded(es) ==> AllDecoded(window);
      match DecodeAll(window)
      case Err(k) => Err(Status(Internal, "failed to decode validator " + k))
      case Ok(vs) => Ok(QueryAllValidatorResponse(vs, if countTotal then |es| else 0))
  }

  /** Paging reads only the page: a value that does not decode past the
      first `limit` entries does not make the listing fail. */
  lemma UndecodablePastPageIsHarmless(v: Validator)
    ensures
      var es := [Entry("a", Decoded(v)), Entry("b", Undecodable)];
      ListValidator(es, Some(QueryAllValidatorRequest(Some(PageRequest(1, false)))))
      == Ok(QueryAllValidatorResponse([v], 0))
  {
    var es := [Entry("a", Decoded(v)), Entry("b", Undecodable)];
    assert es[..1] == [Entry("a", Decoded(v))];
    var r := DecodeAll(es[..1]);
    assert r.Ok? && |r.value| == 1 && r.value[0] == v;
    assert r.value == [v];
  }

  /** Listing without a limit and with the total counted returns every stored
      validator in key order, and the total is the store size (up to the
      default page size). */
  lemma ListAllWithTotal(es: seq<Entry>)
    requires AllDecoded(es) && |es| <= DefaultLimit
    ensures
      var r := ListValidator(es, Some(QueryAllValidatorRequest(Some(PageRequest(0, true)))));
      r.Ok? && r.value.total == |es| && |r.value.validators| == |es|
      && forall i :: 0 <= i < |es| ==> es[i].stored == Decoded(r.value.validators[i])
  {
  }
}
