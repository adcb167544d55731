/** Applying a secret whose type is immutable: delete and apply again, at most once, and only when that helps. */
module Secrets {
  import opened Common

  type Bytes = seq<bv8>
  datatype Secret = Secret(type_: string, labels: Labels, data: map<string, Bytes>, immutable: bool)

  /** Why an apply is refused as invalid: the type would change, frozen data would change, or the secret itself. */
  datatype Cause = TypeChange | FrozenData | BadSecret(message: string)

  datatype ApplyResult = Accepted | Invalid(causes: seq<Cause>) | OtherError

  /** What the caller wants; `bad` are the faults the API server finds in it whatever exists already. */
  datatype Wanted = Wanted(type_: string, labels: Labels, data: map<string, Bytes>, bad: seq<string>)

  /** Which API calls would go through; only a deleted secret is applied a second time. */
  datatype Calls = Calls(apply: bool, delete: bool, applyAgain: bool)

  function Causes(existing: Option<Secret>, w: Wanted): seq<Cause> {
    seq(|w.bad|, i requires 0 <= i < |w.bad| => BadSecret(w.bad[i])) +
    (if existing.Some? && existing.value.type_ != w.type_ then [TypeChange] else []) +
    (if existing.Some? && existing.value.immutable && existing.value.data != w.data then [FrozenData] else [])
  }

  function Stored(existing: Option<Secret>, w: Wanted): Secret {
    Secret(w.type_, w.labels, w.data, existing.Some? && existing.value.immutable)
  }

  /** The type is all that stands in the way. */
  predicate OnlyTypeChanges(existing: Option<Secret>, w: Wanted) {
    && existing.Some? && existing.value.type_ != w.type_
    && w.bad == []
    && (existing.value.immutable ==> existing.value.data == w.data)
  }

  predicate NothingChanges(existing: Option<Secret>, w: Wanted) {
    && w.bad == []
    && (existing.Some? ==>
          && existing.value.type_ == w.type_
          && (existing.value.immutable ==> existing.value.data == w.data))
  }

  lemma CausesTell(existing: Option<Secret>, w: Wanted)
    ensures Causes(existing, w) == [] <==> NothingChanges(existing, w)
    ensures Causes(existing, w) != [] && (forall c :: c in Causes(existing, w) ==> c == TypeChange) <==>
            OnlyTypeChanges(existing, w)
  {
    var causes := Causes(existing, w);
    if w.bad != [] {
      assert causes[0] == BadSecret(w.bad[0]) && causes[0] in causes;
    } else if existing.Some? && existing.value.type_ != w.type_ {
      assert causes[0] == TypeChange;
      if existing.value.immutable && existing.value.data != w.data {
        assert causes == [TypeChange, FrozenData] && FrozenData in causes;
      } else {
        assert causes == [TypeChange];
      }
    } else if existing.Some? && existing.value.immutable && existing.value.data != w.data {
      assert causes == [FrozenData] && FrozenData in causes;
    }
  }

  class SecretClient {
    var existing: Option<Secret>

    constructor (s: Option<Secret>)
      ensures existing == s
    {
      existing := s;
    }

    method Apply(w: Wanted, works: bool) returns (r: ApplyResult)
      modifies this
      ensures r == if !works then OtherError
                   else if Causes(old(existing), w) == [] then Accepted else Invalid(Causes(old(existing), w))
      ensures existing == if r == Accepted then Some(Stored(old(existing), w)) else old(existing)
    {
      if !works {
        return OtherError;
      }
      var causes := Causes(existing, w);
      if causes != [] {
        return Invalid(causes);
      }
      existing := Some(Stored(existing, w));
      return Accepted;
    }

    /** Deleting what is not there is fine. */
    method DeleteSecret(works: bool) returns (ok: bool)
      modifies this
      ensures ok == (works || old(existing).None?)
      ensures existing == if ok then None else old(existing)
    {
      if existing.None? {
        return true;
      }
      if !works {
        return false;
      }
      existing := None;
      return true;
    }

    /**
     * Succeeds with the wanted secret exactly when nothing or only the type was in the way and the calls went through;
     * a secret is deleted only if it is valid to create it anew, and is lost only if that creation then fails.
     */
    method ReconcileSecret(w: Wanted, deleteResource: bool, calls: Calls) returns (ok: bool, applies: nat)
      modifies this
      ensures applies <= 2 && (!deleteResource ==> applies >= 1)
      ensures deleteResource ==> applies == 0 && ok == (calls.delete || old(existing).None?)
      ensures deleteResource ==> existing == if ok then None else old(existing)
      ensures !deleteResource ==> (ok <==>
                && calls.apply
                && (|| NothingChanges(old(existing), w)
                    || (OnlyTypeChanges(old(existing), w) && calls.delete && calls.applyAgain)))
      ensures !deleteResource && ok ==>
                existing == Some(Stored(if applies == 1 then old(existing) else None, w))
      ensures !deleteResource && ok ==>
                && existing.Some? && existing.value.type_ == w.type_
                && existing.value.labels == w.labels && existing.value.data == w.data
      ensures !deleteResource && !ok ==>
                existing == if applies == 2 then None else old(existing)
      ensures !deleteResource ==>
                (applies == 2 <==> calls.apply && calls.delete && OnlyTypeChanges(old(existing), w))
      decreases if existing.Some? then 1 else 0
    {
      if deleteResource {
        ok := DeleteSecret(calls.delete);
        return ok, 0;
      }
      CausesTell(existing, w);
      var result := Apply(w, calls.apply);
      if result.Invalid? && forall c :: c in result.causes ==> c == TypeChange {
        var deleted := DeleteSecret(calls.delete);
        if !deleted {
          return false, 1;
        }
        var again;
        ok, again := ReconcileSecret(w, deleteResource, Calls(calls.applyAgain, calls.delete, false));
        return ok, again + 1;
      }
      return result == Accepted, 1;
    }
  }

  /** The two ways to succeed: the existing secret fits or is absent, or it differs in its type only. */
  lemma WaysExactly(existing: Option<Secret>, w: Wanted)
    ensures var frozen := existing.Some? && existing.value.immutable && existing.value.data != w.data;
            var other := existing.Some? && existing.value.type_ != w.type_;
            && (NothingChanges(existing, w) <==> w.bad == [] && !frozen && !other)
            && (OnlyTypeChanges(existing, w) <==> w.bad == [] && !frozen && other)
  {
  }

  /** The API server refuses exactly what is bad in itself, changes the type, or changes frozen data. */
  lemma RefusedExactly(existing: Option<Secret>, w: Wanted)
    ensures Causes(existing, w) != [] <==>
            || w.bad != []
            || (existing.Some? && existing.value.type_ != w.type_)
            || (existing.Some? && existing.value.immutable && existing.value.data != w.data)
  {
    CausesTell(existing, w);
    WaysExactly(existing, w);
  }
}
