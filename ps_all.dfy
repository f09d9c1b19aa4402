/** `PsAll`: a pass that admits a request only when every pass in a list
    admits it, and then answers with the identity of one chosen pass. */
module PsAll {
  import opened Wrappers
  import opened Text

  /** A pass, reduced to what `PsAll` uses of it: `enter` finds the identity
      a request carries, if any; `exit` decorates the response for it. */
  datatype Pass<!Req, !Id, !Res> = Pass(enter: Req -> Option<Id>, exit: (Res, Id) -> Res)

  /** The `IllegalArgumentException`s of the constructor. */
  datatype IndexError = NegativeIndex(index: int) | IndexTooLarge(index: int, size: nat) {
    function Message(): string {
      match this
      case NegativeIndex(i) => "Index " + IntToString(i) + " must be >= 0."
      case IndexTooLarge(i, n) =>
        "Trying to return index " + IntToString(i) + " from a list of " + IntToString(n) + " passes"
    }
  }

  /** The `IOException` of `exit` when the index is beyond the passes. */
  datatype ExitError = IndexBeyondPasses {
    function Message(): string {
      "Index of identity is greater than Pass collection size"
    }
  }

  /** `validated(idx)` against a list of `size` passes: the index itself,
      or the error for a negative index, then for one past the end. */
  function Validated(idx: int, size: nat): (r: Result<nat, IndexError>)
    ensures r.Success? <==> 0 <= idx < size
    ensures r.Success? ==> r.value == idx
    ensures idx < 0 ==> r == Failure(NegativeIndex(idx))
    ensures 0 <= idx && size <= idx ==> r == Failure(IndexTooLarge(idx, size))
  {
    if idx < 0 then Failure(NegativeIndex(idx))
    else if idx >= size then Failure(IndexTooLarge(idx, size))
    else Success(idx)
  }

  /** No index is valid for an empty list of passes. */
  lemma EmptyPassesRejected(idx: int)
    ensures Validated(idx, 0).Failure?
  {
  }

  /** A negative index is rejected, whatever the number of passes, with its
      value rendered in the message. */
  lemma NegativeIndexMessage(idx: int, size: nat)
    requires idx < 0
    ensures Validated(idx, size).error.Message() == "Index " + IntToString(idx) + " must be >= 0."
    ensures IntToString(idx) == "-" + NatToString(-idx) && DecimalValue(NatToString(-idx)) == -idx
  {
    IntToStringValue(idx);
  }

  /** An index at or past the end is rejected with both the index and the
      number of passes rendered in the message. */
  lemma TooLargeIndexMessage(idx: int, size: nat)
    requires 0 <= idx && size <= idx
    ensures Validated(idx, size).error.Message() ==
      "Trying to return index " + IntToString(idx) + " from a list of " + IntToString(size) + " passes"
    ensures DecimalValue(IntToString(idx)) == idx && DecimalValue(IntToString(size)) == size
  {
    IntToStringValue(idx);
    IntToStringValue(size);
  }

  /** Every pass of the list finds an identity in the request. */
  predicate AllAdmit<Req, Id, Res>(passes: seq<Pass<Req, Id, Res>>, request: Req) {
    forall i :: 0 <= i < |passes| ==> passes[i].enter(request).Some?
  }

  class PsAll<Req, Id, Res> {
    /** The passes, copied from the caller's list. */
    const all: seq<Pass<Req, Id, Res>>
    /** The position of the pass whose identity `enter` returns. */
    const index: nat

    predicate Valid() {
      index < |all|
    }

    /** Sets the two fields once the index has been validated. */
    constructor Init(passes: seq<Pass<Req, Id, Res>>, idx: nat)
      requires idx < |passes|
      ensures all == passes && index == idx && Valid()
    {
      all := passes;
      index := idx;
    }

    /** `new PsAll(passes, identity)`: copies the caller's list, then
        validates the index against the copy. */
    static method Create(passes: array<Pass<Req, Id, Res>>, identity: int)
      returns (r: Result<PsAll<Req, Id, Res>, IndexError>)
      ensures r.Success? <==> 0 <= identity < passes.Length
      ensures r.Success? ==>
        fresh(r.value) && r.value.Valid() && r.value.all == passes[..] && r.value.index == identity
      ensures r.Failure? ==> Validated(identity, passes.Length) == Failure(r.error)
    {
      var copy := passes[..];
      var v := Validated(identity, |copy|);
      if v.Failure? {
        r := Failure(v.error);
      } else {
        var p := new PsAll.Init(copy, v.value);
        r := Success(p);
      }
    }

    /** `allMatch(request)`: asks the passes in list order and stops at the
        first that finds no identity; `consulted` counts the passes asked. */
    method AllMatch(request: Req) returns (success: bool, ghost consulted: nat)
      ensures success <==> AllAdmit(all, request)
      ensures consulted <= |all|
      ensures success ==> consulted == |all|
      ensures !success ==>
        0 < consulted && all[consulted - 1].enter(request).None? &&
        forall i :: 0 <= i < consulted - 1 ==> all[i].enter(request).Some?
    {
      success := true;
      consulted := 0;
      for k := 0 to |all|
        invariant success && consulted == k
        invariant forall i :: 0 <= i < k ==> all[i].enter(request).Some?
      {
        consulted := k + 1;
        if all[k].enter(request).None? {
          success := false;
          break;
        }
      }
    }

    /** `enter(request)`: the chosen pass's identity when every pass admits
        the request, nothing as soon as one of them refuses it. */
    method Enter(request: Req) returns (r: Option<Id>)
      requires Valid()
      ensures !AllAdmit(all, request) ==> r == None
      ensures AllAdmit(all, request) ==> r == all[index].enter(request) && r.Some?
    {
      var success, _ := AllMatch(request);
      if success {
        r := all[index].enter(request);
      } else {
        r := None;
      }
    }

    /** `exit(response, identity)`: the chosen pass's exit, guarded by the
        size check that a validated index always passes. */
    function Exit(response: Res, identity: Id): (r: Result<Res, ExitError>)
      ensures r.Failure? <==> index >= |all|
      ensures Valid() ==> r == Success(all[index].exit(response, identity))
    {
      if index >= |all| then Failure(IndexBeyondPasses)
      else Success(all[index].exit(response, identity))
    }
  }

  /** One refusal anywhere in the list is a refusal of the whole. */
  method RefusalIsFinal<Req, Id, Res>(p: PsAll<Req, Id, Res>, request: Req, j: nat)
    returns (r: Option<Id>)
    requires p.Valid() && j < |p.all| && p.all[j].enter(request).None?
    ensures r == None
  {
    r := p.Enter(request);
  }

  /** Changing the caller's list after construction changes nothing in the
      constructed pass. */
  method CopyIsolates<Req, Id, Res>(passes: array<Pass<Req, Id, Res>>, identity: int, k: nat, other: Pass<Req, Id, Res>)
    returns (r: Result<PsAll<Req, Id, Res>, IndexError>)
    requires k < passes.Length
    modifies passes
    ensures r.Success? ==> r.value.all == old(passes[..]) && r.value.all[k] == old(passes[k])
    ensures passes[k] == other
  {
    r := PsAll<Req, Id, Res>.Create(passes, identity);
    passes[k] := other;
  }
}
