/**
 Reference ownership in the native binding. Every reference the native code comes to own is a
 token; releasing or handing over a token takes it away, and nothing else does. Which calls into the
 Python API fail is an input, a list of fates that is consumed call by call. What each function ends with is stated by `Settled`: it owns what
 it owned before, plus the one reference it returns, if it returns one. `pending` is Python's error
 indicator: a function must report a failure exactly when it leaves an error pending.
 */
module RefOwnership {
  import opened Wrappers

  /** What the caller of a builder may receive: a null pointer or a reference. */
  type Ref = Option<nat>

  ghost function Returned(r: Ref): set<nat> { if r.Some? then {r.value} else {} }

  /** The requests the binding reads. */
  datatype Kind = Add | Delete | Search | Storage

  /** What stands at a field: nothing, something that is no sequence, or a sequence; and what of it can be converted. */
  datatype Field = Absent | Scalar(good: bool) | Vector(items: seq<bool>)

  /** A request: a dictionary or an object, its fields in the order they are read, and whether a storage type is known. */
  datatype Request = Request(kind: Kind, isDict: bool, fields: seq<Field>, known: bool)

  /** Which fields of a request are vectors. */
  function Shape(kind: Kind): seq<bool> {
    match kind
    case Add => [false, true, true, true, false, false]
    case Delete => [false, false]
    case Search => [true, true, true, false, false]
    case Storage => [false, false, false]
  }

  predicate Convertible(f: Field, isVector: bool) {
    match f
    case Absent => true
    case Scalar(good) => good && !isVector
    case Vector(items) => isVector && forall i | 0 <= i < |items| :: items[i]
  }

  predicate AllConvertible(fields: seq<Field>, vectors: seq<bool>)
    requires |fields| == |vectors|
  {
    fields == [] ||
    (AllConvertible(fields[..|fields| - 1], vectors[..|fields| - 1]) && Convertible(fields[|fields| - 1], vectors[|fields| - 1]))
  }

  predicate WellShaped(r: Request) { |r.fields| == |Shape(r.kind)| }

  predicate AllReadable(requests: seq<Request>)
    requires forall i | 0 <= i < |requests| :: WellShaped(requests[i])
  {
    requests == [] || (AllReadable(requests[..|requests| - 1]) && Readable(requests[|requests| - 1]))
  }

  /** A request that can be read: every field that is there converts; a storage key is there and its type known. */
  predicate Readable(r: Request)
    requires WellShaped(r)
  {
    && AllConvertible(r.fields, Shape(r.kind))
    && (r.kind.Storage? ==> !r.fields[1].Absent? && (r.fields[0].Absent? || r.known))
  }

  /** The calls that can fail while a field is read: its attribute, and each item of a vector. */
  function FieldCalls(isDict: bool, f: Field): nat {
    (if isDict then 0 else 1) + if f.Vector? then |f.items| else 0
  }

  function FieldsCalls(isDict: bool, fields: seq<Field>): nat {
    if fields == [] then 0
    else FieldsCalls(isDict, fields[..|fields| - 1]) + FieldCalls(isDict, fields[|fields| - 1])
  }

  function RequestsCalls(requests: seq<Request>): nat {
    if requests == [] then 0
    else
      var last := requests[|requests| - 1];
      RequestsCalls(requests[..|requests| - 1]) + 1 + FieldsCalls(last.isDict, last.fields)
  }

  class Native {
    ghost var held: set<nat>
    ghost var next: nat
    ghost var pending: bool
    var last: nat

    /** Whether each call into the API succeeds; calls beyond the list do. */
    const fates: seq<bool>
    var calls: nat

    predicate Succeeds(k: nat) { k < |fates| ==> fates[k] }

    /** Calls `from` up to `to` all succeed. */
    predicate AllSucceed(from: nat, to: nat) { forall k | from <= k < to :: Succeeds(k) }

    ghost predicate Valid()
      reads this
    {
      next == last && forall t | t in held :: t < next
    }

    constructor (fates: seq<bool>)
      ensures Valid() && held == {} && !pending && this.fates == fates && calls == 0
    {
      held, next, last, pending := {}, 0, 0, false;
      this.fates, calls := fates, 0;
    }

    /** What every function ends with. */
    twostate predicate Settled(new r: Ref)
      reads this
    {
      Valid() && held == old(held) + Returned(r) && Returned(r) !! old(held) && old(next) <= next
    }

    /** What every function that returns a reference ends with: it returns none exactly on an error. */
    twostate predicate Made(new r: Ref)
      reads this
    {
      Settled(r) && pending == (old(pending) || r.None?)
    }

    /** What every function that returns a truth value ends with. */
    twostate predicate Reported(new ok: bool)
      reads this
    {
      Settled(None) && pending == !ok
    }

    /** What a reader ends with: true exactly if no call failed and what it read is good, after all its calls. */
    twostate predicate ReadAll(new ok: bool, new good: bool, new n: nat)
      reads this
    {
      && Reported(ok)
      && old(calls) <= calls
      && (ok <==> good && AllSucceed(old(calls), calls))
      && (ok ==> calls == old(calls) + n)
    }

    // -------------------------------------------------------------- the Python API

    /** A call that returns a new reference, or fails. */
    method New() returns (r: Ref)
      requires Valid()
      modifies this
      ensures Made(r) && (r.Some? <==> Succeeds(old(calls))) && calls == old(calls) + 1
    {
      calls := calls + 1;
      if !Succeeds(calls - 1) {
        pending := true;
        return None;
      }
      r := Some(last);
      held, next, last := held + {last}, next + 1, last + 1;
    }

    /** `Py_INCREF` of a borrowed reference. */
    method Own() returns (t: nat)
      requires Valid()
      modifies this
      ensures Settled(Some(t)) && pending == old(pending) && calls == old(calls)
    {
      t := last;
      held, next, last := held + {last}, next + 1, last + 1;
    }

    /** `Py_DECREF`: the reference must be owned, so none is released twice. */
    method Release(t: nat)
      requires Valid() && t in held
      modifies this`held
      ensures Valid() && held == old(held) - {t}
    {
      held := held - {t};
    }

    /** `Py_XDECREF` */
    method ReleaseIfAny(r: Ref)
      requires Valid() && (r.Some? ==> r.value in held)
      modifies this`held
      ensures Valid() && held == old(held) - Returned(r)
    {
      if r.Some? { Release(r.value); }
    }

    /** `PyList_SetItem` and `PyTuple_SetItem` steal the reference, whether they succeed or not. */
    method Steal(t: nat)
      requires Valid() && t in held
      modifies this`held
      ensures Valid() && held == old(held) - {t}
    {
      held := held - {t};
    }

    /** A call that owns nothing and may fail: a conversion, `PyDict_SetItemString`. */
    method Try() returns (ok: bool)
      modifies this`pending, this`calls
      ensures pending == (old(pending) || !ok) && ok == Succeeds(old(calls)) && calls == old(calls) + 1
    {
      calls := calls + 1;
      ok := Succeeds(calls - 1);
      pending := pending || !ok;
    }

    /** `PyErr_SetString` */
    method Raise()
      modifies this`pending
      ensures pending
    {
      pending := true;
    }

    // -------------------------------------------------------------- request readers

    /** A conversion of a value that has a good form or not. */
    method Convert(good: bool) returns (ok: bool)
      modifies this`pending
      ensures ok == good && pending == (old(pending) || !ok)
    {
      ok := good;
      pending := pending || !ok;
    }

    /** `get_named_value`: a borrowed dictionary entry made owned, or an attribute, whose absence is no error. */
    method GetNamedValue(isDict: bool, f: Field) returns (ok: bool, value: Ref)
      requires Valid() && !pending
      modifies this
      ensures Settled(value) && pending == !ok
      ensures calls == old(calls) + if isDict then 0 else 1
      ensures ok <==> AllSucceed(old(calls), calls)
      ensures value.Some? <==> ok && !f.Absent?
    {
      if isDict {
        if f.Absent? { return true, None; }
        var t := Own();
        return true, Some(t);
      }
      ok := Try();
      value := None;
      if ok && f.Absent? {
        Raise();
        pending := false;
      } else if ok {
        var t := Own();
        value := Some(t);
      }
    }

    /** `py_to_*_vector`: each item is owned only while it is converted. */
    method ReadVector(f: Field) returns (ok: bool)
      requires Valid() && !pending && !f.Absent?
      modifies this
      ensures ReadAll(ok, Convertible(f, true), if f.Vector? then |f.items| else 0)
    {
      if !f.Vector? {
        Raise();
        return false;
      }
      for i := 0 to |f.items|
        invariant Reported(true) && calls == old(calls) + i && AllSucceed(old(calls), calls)
        invariant forall j | 0 <= j < i :: f.items[j]
      {
        var item := New();
        if item.None? { return false; }
        var converted := Convert(f.items[i]);
        Release(item.value);
        if !converted { return false; }
      }
      ok := true;
    }

    /** A value that was fetched, as the field wants it. */
    method ReadValue(f: Field, isVector: bool) returns (ok: bool)
      requires Valid() && !pending && !f.Absent?
      modifies this
      ensures ReadAll(ok, Convertible(f, isVector), if f.Vector? then |f.items| else 0)
    {
      if isVector {
        ok := ReadVector(f);
      } else {
        ok := Convert(f.Scalar? && f.good);
      }
    }

    /** One optional field: fetch it, convert it if it is there, release it on every path. */
    method ReadField(isDict: bool, f: Field, isVector: bool) returns (ok: bool)
      requires Valid() && !pending
      modifies this
      ensures ReadAll(ok, Convertible(f, isVector), FieldCalls(isDict, f))
    {
      var fetched, value := GetNamedValue(isDict, f);
      if !fetched { return false; }
      if value.Some? {
        var converted := ReadValue(f, isVector);
        if !converted {
          Release(value.value);
          return false;
        }
      }
      ReleaseIfAny(value);
      ok := true;
    }

    /** The fields of a request in order, stopping at the first that cannot be read. */
    method ReadFields(isDict: bool, fields: seq<Field>, vectors: seq<bool>) returns (ok: bool)
      requires Valid() && !pending && |fields| == |vectors|
      modifies this
      ensures ReadAll(ok, AllConvertible(fields, vectors), FieldsCalls(isDict, fields))
    {
      for i := 0 to |fields|
        invariant ReadAll(true, AllConvertible(fields[..i], vectors[..i]), FieldsCalls(isDict, fields[..i]))
      {
        FieldsCallsMore(isDict, fields, i);
        AllConvertibleMore(fields, vectors, i);
        var read := ReadField(isDict, fields[i], vectors[i]);
        if !read { return false; }
      }
      assert fields[..|fields|] == fields && vectors[..|fields|] == vectors;
      ok := true;
    }

    /** `parse_add_request`, `parse_delete_request`, `parse_search_request`, `parse_storage_op` */
    method ReadRequest(r: Request) returns (ok: bool)
      requires Valid() && !pending && WellShaped(r)
      modifies this
      ensures ReadAll(ok, Readable(r), FieldsCalls(r.isDict, r.fields))
    {
      match r.kind
      case Add => ok := ReadFields(r.isDict, r.fields, [false, true, true, true, false, false]);
      case Delete => ok := ReadFields(r.isDict, r.fields, [false, false]);
      case Search => ok := ReadFields(r.isDict, r.fields, [true, true, true, false, false]);
      case Storage =>
        ok := ReadStorageOp(r.isDict, r.fields[0], r.known, r.fields[1], r.fields[2]);
        assert r.fields == [r.fields[0], r.fields[1], r.fields[2]];
        ThreeFieldsCalls(r.isDict, r.fields[0], r.fields[1], r.fields[2]);
        AllConvertibleMore(r.fields, Shape(Storage), 0);
        AllConvertibleMore(r.fields, Shape(Storage), 1);
        AllConvertibleMore(r.fields, Shape(Storage), 2);
        assert r.fields[..3] == r.fields && Shape(Storage)[..3] == Shape(Storage);
    }

    /** One item of a list of requests, owned while it is parsed. */
    method ReadItem(r: Request) returns (ok: bool)
      requires Valid() && !pending && WellShaped(r)
      modifies this
      ensures ReadAll(ok, Readable(r), 1 + FieldsCalls(r.isDict, r.fields))
    {
      var item := New();
      if item.None? { return false; }
      ok := ReadRequest(r);
      Release(item.value);
    }

    /** The loop of `parse_request_list`. */
    method ReadItems(requests: seq<Request>) returns (ok: bool)
      requires Valid() && !pending && forall i | 0 <= i < |requests| :: WellShaped(requests[i])
      modifies this
      ensures ReadAll(ok, AllReadable(requests), RequestsCalls(requests))
    {
      for i := 0 to |requests|
        invariant ReadAll(true, AllReadable(requests[..i]), RequestsCalls(requests[..i]))
      {
        RequestsCallsMore(requests, i);
        AllReadableMore(requests, i);
        var parsed := ReadItem(requests[i]);
        if !parsed { return false; }
      }
      assert requests[..|requests|] == requests;
      ok := true;
    }

    /** `parse_request_list` */
    method ReadRequestList(isSequence: bool, requests: seq<Request>) returns (ok: bool)
      requires Valid() && !pending && forall i | 0 <= i < |requests| :: WellShaped(requests[i])
      modifies this
      ensures ReadAll(ok, isSequence && AllReadable(requests), RequestsCalls(requests))
    {
      if !isSequence {
        Raise();
        return false;
      }
      ok := ReadItems(requests);
    }

    /** The type of a storage operation: an integer that is known, if it is there. */
    method ReadStorageType(isDict: bool, f: Field, known: bool) returns (ok: bool)
      requires Valid() && !pending
      modifies this
      ensures ReadAll(ok, f.Absent? || (Convertible(f, false) && known), if isDict then 0 else 1)
    {
      var fetched, value := GetNamedValue(isDict, f);
      if !fetched { return false; }
      if value.Some? {
        var isInteger := Convert(f.Scalar? && f.good);
        if !isInteger {
          Release(value.value);
          return false;
        }
        if !known {
          Release(value.value);
          Raise();
          return false;
        }
      }
      ReleaseIfAny(value);
      ok := true;
    }

    /** The key of a storage operation, which is required. */
    method ReadStorageKey(isDict: bool, f: Field) returns (ok: bool)
      requires Valid() && !pending
      modifies this
      ensures ReadAll(ok, !f.Absent? && Convertible(f, false), if isDict then 0 else 1)
    {
      var fetched, value := GetNamedValue(isDict, f);
      if !fetched { return false; }
      if value.None? {
        Raise();
        return false;
      }
      var converted := Convert(f.Scalar? && f.good);
      if !converted {
        ReleaseIfAny(value);
        return false;
      }
      Release(value.value);
      ok := true;
    }

    /** `parse_storage_op`: a checked type, a required key, an optional value. */
    method ReadStorageOp(isDict: bool, kind: Field, known: bool, key: Field, value: Field) returns (ok: bool)
      requires Valid() && !pending
      modifies this
      ensures ReadAll(ok, (kind.Absent? || (Convertible(kind, false) && known)) && !key.Absent? && Convertible(key, false) &&
                          Convertible(value, false), 3 * if isDict then 0 else 1)
    {
      ok := ReadStorageType(isDict, kind, known);
      if !ok { return; }
      ok := ReadStorageKey(isDict, key);
      if !ok { return; }
      ok := ReadField(isDict, value, false);
    }

    // -------------------------------------------------------------- builders

    /** `*_vector_to_py`: a list of n new items, if all n + 1 creations succeed. */
    method BuildList(n: nat) returns (list: Ref)
      requires Valid()
      modifies this
      ensures Made(list) && (list.Some? <==> AllSucceed(old(calls), old(calls) + 1 + n))
      ensures list.Some? ==> calls == old(calls) + 1 + n
    {
      list := New();
      if list.None? { return; }
      for i := 0 to n
        invariant Made(list) && AllSucceed(old(calls), calls) && calls == old(calls) + 1 + i
      {
        var item := New();
        if item.None? {
          Release(list.value);
          return None;
        }
        Steal(item.value);
      }
    }

    /** One pair of `store_items_to_python`, or none of its parts. */
    method BuildPair() returns (tuple: Ref)
      requires Valid()
      modifies this
      ensures Made(tuple) && (tuple.Some? <==> AllSucceed(old(calls), old(calls) + 3)) && calls == old(calls) + 3
    {
      tuple := New();
      var key := New();
      var value := New();
      if tuple.None? || key.None? || value.None? {
        ReleaseIfAny(tuple);
        ReleaseIfAny(key);
        ReleaseIfAny(value);
        return None;
      }
      Steal(key.value);
      Steal(value.value);
    }

    /** `store_items_to_python`: a list of n pairs, if all 3 n + 1 creations succeed. */
    method BuildPairs(n: nat) returns (list: Ref)
      requires Valid()
      modifies this
      ensures Made(list) && (list.Some? <==> AllSucceed(old(calls), old(calls) + 1 + 3 * n))
    {
      list := New();
      if list.None? { return; }
      for i := 0 to n
        invariant Made(list) && AllSucceed(old(calls), calls) && calls == old(calls) + 1 + 3 * i
      {
        var tuple := BuildPair();
        if tuple.None? {
          Release(list.value);
          return None;
        }
        Steal(tuple.value);
      }
    }

    /** The three checked insertions of `build_packed_filter_result`; the first that fails is the last tried. */
    method InsertChecked() returns (ok: bool)
      modifies this`pending, this`calls
      ensures pending == (old(pending) || !ok) && ok == AllSucceed(old(calls), old(calls) + 3)
    {
      ok := Try();
      if ok { ok := Try(); }
      if ok { ok := Try(); }
    }

    /** The three insertions of `build_filter_result`, whose results are ignored. */
    method InsertUnchecked()
      modifies this`pending, this`calls
      ensures pending == (old(pending) || !AllSucceed(old(calls), old(calls) + 3))
    {
      var first := Try();
      var second := Try();
      var third := Try();
      assert first == Succeeds(old(calls)) && second == Succeeds(old(calls) + 1) && third == Succeeds(old(calls) + 2);
    }

    /**
     `build_packed_filter_result`: an object if the bitmap fits and all eight calls succeed. It never
     returns an object with a new error pending.
     */
    method BuildPackedFilterResult(words: nat, maxSize: nat) returns (payload: Ref)
      requires Valid()
      modifies this
      ensures Made(payload)
      ensures payload.Some? <==> words <= maxSize / 4 && AllSucceed(old(calls), old(calls) + 8)
    {
      payload := New();
      if payload.None? { return; }
      if words > maxSize / 4 {
        Release(payload.value);
        Raise();
        return None;
      }
      var bytes := New();
      if bytes.None? {
        Release(payload.value);
        return None;
      }
      var writable := Try();
      if !writable {
        Release(bytes.value);
        Release(payload.value);
        return None;
      }
      var count := New();
      var token := New();
      if count.None? || token.None? {
        ReleaseIfAny(count);
        Release(bytes.value);
        ReleaseIfAny(token);
        Release(payload.value);
        return None;
      }
      assert calls == old(calls) + 5 && AllSucceed(old(calls), old(calls) + 5);
      var stored := InsertChecked();
      Release(count.value);
      Release(bytes.value);
      Release(token.value);
      if !stored {
        Release(payload.value);
        return None;
      }
    }

    /**
     `build_filter_result`: an object if all creations succeed, whether or not the insertions do. An
     insertion that fails leaves its error pending beside the object.
     */
    method BuildFilterResult(words: nat) returns (payload: Ref)
      requires Valid()
      modifies this
      ensures Settled(payload)
      ensures payload.Some? <==> AllSucceed(old(calls), old(calls) + words + 4)
      ensures payload.None? ==> pending
      ensures payload.Some? ==>
        pending == (old(pending) || !AllSucceed(old(calls) + words + 4, old(calls) + words + 7))
    {
      payload := New();
      if payload.None? { return; }
      var count := New();
      var bits := BuildList(words);
      var token := New();
      if count.None? || bits.None? || token.None? {
        ReleaseIfAny(count);
        ReleaseIfAny(bits);
        ReleaseIfAny(token);
        Release(payload.value);
        return None;
      }
      InsertUnchecked();
      Release(count.value);
      Release(bits.value);
      Release(token.value);
    }
  }

  lemma FieldsCallsMore(isDict: bool, fields: seq<Field>, i: nat)
    requires i < |fields|
    ensures FieldsCalls(isDict, fields[..i + 1]) == FieldsCalls(isDict, fields[..i]) + FieldCalls(isDict, fields[i])
  {
    assert fields[..i + 1][..i] == fields[..i];
  }

  lemma AllConvertibleMore(fields: seq<Field>, vectors: seq<bool>, i: nat)
    requires i < |fields| == |vectors|
    ensures AllConvertible(fields[..i + 1], vectors[..i + 1])
       <==> AllConvertible(fields[..i], vectors[..i]) && Convertible(fields[i], vectors[i])
    ensures AllConvertible(fields, vectors) ==> AllConvertible(fields[..i + 1], vectors[..i + 1])
    decreases |fields| - i
  {
    assert fields[..i + 1][..i] == fields[..i] && vectors[..i + 1][..i] == vectors[..i];
    if i + 1 == |fields| {
      assert fields[..i + 1] == fields && vectors[..i + 1] == vectors;
    } else {
      AllConvertibleMore(fields, vectors, i + 1);
    }
  }

  /** A request is readable field by field. */
  lemma ReadableMeans(r: Request, i: nat)
    requires WellShaped(r) && Readable(r) && i < |r.fields|
    ensures Convertible(r.fields[i], Shape(r.kind)[i])
  {
    AllConvertibleMore(r.fields, Shape(r.kind), i);
  }

  lemma AllReadableMore(requests: seq<Request>, i: nat)
    requires i < |requests| && forall j | 0 <= j < |requests| :: WellShaped(requests[j])
    ensures AllReadable(requests[..i + 1]) <==> AllReadable(requests[..i]) && Readable(requests[i])
    ensures AllReadable(requests) ==> AllReadable(requests[..i + 1])
    decreases |requests| - i
  {
    assert requests[..i + 1][..i] == requests[..i];
    if i + 1 == |requests| {
      assert requests[..i + 1] == requests;
    } else {
      AllReadableMore(requests, i + 1);
    }
  }

  lemma RequestsCallsMore(requests: seq<Request>, i: nat)
    requires i < |requests|
    ensures RequestsCalls(requests[..i + 1])
         == RequestsCalls(requests[..i]) + 1 + FieldsCalls(requests[i].isDict, requests[i].fields)
  {
    assert requests[..i + 1][..i] == requests[..i];
  }

  lemma ThreeFieldsCalls(isDict: bool, a: Field, b: Field, c: Field)
    ensures FieldsCalls(isDict, [a, b, c]) == FieldCalls(isDict, a) + FieldCalls(isDict, b) + FieldCalls(isDict, c)
  {
    var fields := [a, b, c];
    FieldsCallsMore(isDict, fields, 0);
    FieldsCallsMore(isDict, fields, 1);
    FieldsCallsMore(isDict, fields, 2);
    assert fields[..3] == fields;
  }

  /** For every list of fates: a new object comes with an error exactly if its creations succeed and an insertion fails. */
  method FilterResultWithError(fates: seq<bool>, words: nat) returns (native: Native, payload: Ref)
    ensures native.fates == fates
    ensures payload.Some? && native.pending <==>
      native.AllSucceed(0, words + 4) && !native.AllSucceed(words + 4, words + 7)
  {
    native := new Native(fates);
    payload := native.BuildFilterResult(words);
  }

  /** It does happen: the first insertion of an empty bitmap's result fails. */
  method FailingInsertion() returns (native: Native, payload: Ref)
    ensures payload.Some? && native.pending
  {
    var fates := [true, true, true, true, false];
    native, payload := FilterResultWithError(fates, 0);
    assert !native.Succeeds(4);
  }

  /** The packed builder never does this, whatever fails. */
  method PackedResultWithoutError(fates: seq<bool>, words: nat, maxSize: nat) returns (native: Native, payload: Ref)
    ensures native.fates == fates && (payload.Some? <==> !native.pending)
    ensures payload.Some? <==> words <= maxSize / 4 && native.AllSucceed(0, 8)
  {
    native := new Native(fates);
    payload := native.BuildPackedFilterResult(words, maxSize);
  }
}
