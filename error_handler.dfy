/**
 * The Express error handler (src/error/ErrorHandler.js): it replies with the
 * error's own status and a body holding the request path, a timestamp, the
 * translated message and, when the error carries a list of field errors, an
 * object mapping each field to its translated message. The object is built
 * by successive property assignments, so it is modelled as a list of entries
 * in first-assignment order, where a later assignment to a key overwrites
 * the value in place. That is the order JavaScript enumerates keys that are
 * not array indices (field paths such as `email`); index-like keys such as
 * "0" would be enumerated first, in ascending order, which is not modelled.
 * Translation (`req.t`) is the parameter `t`; the clock is `now`.
 */
module ErrorHandler {
  import opened Wrappers
  import opened Errors

  /** The fields of `err` that the handler reads. */
  datatype ErrorObject = ErrorObject(status: int, message: string, errors: Option<seq<FieldError>>)

  datatype Entry = Entry(key: string, value: string)

  datatype ErrorBody = ErrorBody(path: string, timestamp: int, message: string, validationErrors: Option<seq<Entry>>)

  function Keys(obj: seq<Entry>): (ks: seq<string>)
    ensures |ks| == |obj| && forall i :: 0 <= i < |obj| ==> ks[i] == obj[i].key
  {
    if obj == [] then [] else [obj[0].key] + Keys(obj[1..])
  }

  function Paths(errors: seq<FieldError>): (ps: seq<string>)
    ensures |ps| == |errors| && forall i :: 0 <= i < |errors| ==> ps[i] == errors[i].path
  {
    if errors == [] then [] else [errors[0].path] + Paths(errors[1..])
  }

  predicate Distinct(s: seq<string>) {
    forall i, j :: 0 <= i < j < |s| ==> s[i] != s[j]
  }

  /** The elements of `s` without repeats, each where it first occurs. */
  function FirstOccurrences(s: seq<string>): (r: seq<string>)
    ensures Distinct(r)
    ensures forall x :: x in r <==> x in s
  {
    if s == [] then []
    else
      var d := FirstOccurrences(s[..|s| - 1]);
      assert forall x :: x in s <==> x in s[..|s| - 1] || x == s[|s| - 1];
      if s[|s| - 1] in d then d else d + [s[|s| - 1]]
  }

  /** The message of the last error reported for `path`. */
  function LastMessage(errors: seq<FieldError>, path: string): string
    requires path in Paths(errors)
  {
    var n := |errors| - 1;
    if errors[n].path == path then errors[n].msg
    else
      assert Paths(errors[..n]) == Paths(errors)[..n];
      LastMessage(errors[..n], path)
  }

  /** `obj[key] = value` on an object whose keys are distinct. */
  function Assign(obj: seq<Entry>, key: string, value: string): (r: seq<Entry>)
    requires Distinct(Keys(obj))
    ensures Keys(r) == if key in Keys(obj) then Keys(obj) else Keys(obj) + [key]
    ensures forall i :: 0 <= i < |r| && r[i].key == key ==> r[i].value == value
    ensures forall i :: 0 <= i < |r| && r[i].key != key ==> i < |obj| && r[i] == obj[i]
  {
    if obj == [] then [Entry(key, value)]
    else if obj[0].key == key then
      assert key !in Keys(obj[1..]) by {
        assert forall i :: 0 <= i < |obj| - 1 ==> Keys(obj[1..])[i] == Keys(obj)[i + 1];
      }
      [Entry(key, value)] + obj[1..]
    else
      assert Distinct(Keys(obj[1..])) by {
        assert forall i :: 0 <= i < |obj| - 1 ==> Keys(obj[1..])[i] == Keys(obj)[i + 1];
      }
      var rest := Assign(obj[1..], key, value);
      assert Keys(obj) == [obj[0].key] + Keys(obj[1..]);
      [obj[0]] + rest
  }

  /** The object `errors.forEach` builds: one assignment per error, in order. */
  function Fold(errors: seq<FieldError>, t: string -> string): (obj: seq<Entry>)
    ensures Distinct(Keys(obj))
  {
    if errors == [] then []
    else
      var e := errors[|errors| - 1];
      var before := Fold(errors[..|errors| - 1], t);
      if e.path in Keys(before) then Assign(before, e.path, t(e.msg))
      else
        AppendFreshKeepsDistinct(Keys(before), e.path);
        Assign(before, e.path, t(e.msg))
  }

  lemma AppendFreshKeepsDistinct(ks: seq<string>, k: string)
    requires Distinct(ks) && k !in ks
    ensures Distinct(ks + [k])
  {
    var r := ks + [k];
    assert forall i :: 0 <= i < |ks| ==> r[i] == ks[i];
  }

  /**
   * `obj` is what the fold leaves after `errors`: the paths in
   * first-occurrence order, each holding the translated last message.
   */
  predicate Folded(obj: seq<Entry>, errors: seq<FieldError>, t: string -> string) {
    && Keys(obj) == FirstOccurrences(Paths(errors))
    && forall i :: 0 <= i < |obj| ==>
      obj[i].key in Paths(errors) && obj[i].value == t(LastMessage(errors, obj[i].key))
  }

  /** One step of the fold: assigning the last error to what the others left keeps `Folded`. */
  lemma FoldStep(obj: seq<Entry>, errors: seq<FieldError>, t: string -> string)
    requires errors != [] && Folded(obj, errors[..|errors| - 1], t)
    ensures Distinct(Keys(obj))
    ensures Folded(Assign(obj, errors[|errors| - 1].path, t(errors[|errors| - 1].msg)), errors, t)
  {
    FoldStepKeys(obj, errors, t);
    FoldStepValues(obj, errors, t);
  }

  /** The new key, if any, goes last, as in FirstOccurrences. */
  lemma FoldStepKeys(obj: seq<Entry>, errors: seq<FieldError>, t: string -> string)
    requires errors != [] && Keys(obj) == FirstOccurrences(Paths(errors[..|errors| - 1]))
    ensures Distinct(Keys(obj))
    ensures Keys(Assign(obj, errors[|errors| - 1].path, t(errors[|errors| - 1].msg))) == FirstOccurrences(Paths(errors))
  {
    var n := |errors| - 1;
    var ps := Paths(errors);
    assert ps[..n] == Paths(errors[..n]);
    assert ps[n] == errors[n].path;
  }

  /** Every key holds the translation of the last message reported for it. */
  lemma FoldStepValues(obj: seq<Entry>, errors: seq<FieldError>, t: string -> string)
    requires errors != [] && Folded(obj, errors[..|errors| - 1], t)
    ensures var r := Assign(obj, errors[|errors| - 1].path, t(errors[|errors| - 1].msg));
      forall i :: 0 <= i < |r| ==> r[i].key in Paths(errors) && r[i].value == t(LastMessage(errors, r[i].key))
  {
    var n := |errors| - 1;
    var prefix, e := errors[..n], errors[n];
    var r := Assign(obj, e.path, t(e.msg));
    assert Paths(errors)[..n] == Paths(prefix);
    assert Paths(errors)[n] == e.path;
    forall i | 0 <= i < |r|
      ensures r[i].key in Paths(errors) && r[i].value == t(LastMessage(errors, r[i].key))
    {
      if r[i].key != e.path {
        assert r[i] == obj[i];
        assert r[i].key in Paths(prefix);
      }
    }
  }

  /** A list without repeats is its own first occurrences. */
  lemma {:induction false} DistinctIsFirstOccurrences(s: seq<string>)
    requires Distinct(s)
    ensures FirstOccurrences(s) == s
  {
    if s != [] {
      var n := |s| - 1;
      assert Distinct(s[..n]);
      DistinctIsFirstOccurrences(s[..n]);
      assert s[n] !in s[..n];
      assert s[..n] + [s[n]] == s;
    }
  }

  /** The last message for a path reported once is that report's message. */
  lemma {:induction false} LastMessageOfUnique(errors: seq<FieldError>, i: nat)
    requires i < |errors| && forall j :: i < j < |errors| ==> errors[j].path != errors[i].path
    ensures errors[i].path in Paths(errors)
    ensures LastMessage(errors, errors[i].path) == errors[i].msg
  {
    var n := |errors| - 1;
    assert Paths(errors)[i] == errors[i].path;
    if i < n {
      assert Paths(errors[..n]) == Paths(errors)[..n];
      LastMessageOfUnique(errors[..n], i);
    }
  }

  /** The fold yields the paths in first-occurrence order, each with its last message translated. */
  lemma {:induction false} FoldIsFolded(errors: seq<FieldError>, t: string -> string)
    ensures Folded(Fold(errors, t), errors, t)
  {
    if errors != [] {
      FoldIsFolded(errors[..|errors| - 1], t);
      FoldStep(Fold(errors[..|errors| - 1], t), errors, t);
    }
  }

  /**
   * The `errors.forEach` loop: afterwards the keys are the reported paths in
   * first-occurrence order and each key holds the translated message of the
   * LAST error for that path.
   */
  method BuildValidationErrors(errors: seq<FieldError>, t: string -> string) returns (obj: seq<Entry>)
    ensures obj == Fold(errors, t)
    ensures Keys(obj) == FirstOccurrences(Paths(errors))
    ensures forall i :: 0 <= i < |obj| ==>
      obj[i].key in Paths(errors) && obj[i].value == t(LastMessage(errors, obj[i].key))
  {
    obj := [];
    var n := 0;
    while n < |errors|
      invariant 0 <= n <= |errors|
      invariant obj == Fold(errors[..n], t)
    {
      assert errors[..n + 1][..n] == errors[..n];
      obj := Assign(obj, errors[n].path, t(errors[n].msg));
      n := n + 1;
    }
    assert errors[..n] == errors;
    FoldIsFolded(errors, t);
  }

  /** The handler: the error's status and the response body. */
  method HandleError(err: ErrorObject, originalUrl: string, now: int, t: string -> string)
    returns (status: int, body: ErrorBody)
    ensures status == err.status
    ensures body.path == originalUrl && body.timestamp == now && body.message == t(err.message)
    ensures body.validationErrors.Some? <==> err.errors.Some?
    ensures err.errors.Some? ==> body.validationErrors.value == Fold(err.errors.value, t)
    ensures err.errors.Some? ==>
      && Keys(body.validationErrors.value) == FirstOccurrences(Paths(err.errors.value))
      && forall i :: 0 <= i < |body.validationErrors.value| ==>
        var entry := body.validationErrors.value[i];
        entry.key in Paths(err.errors.value) && entry.value == t(LastMessage(err.errors.value, entry.key))
  {
    var validationErrors: Option<seq<Entry>> := None;
    if err.errors.Some? {
      var obj := BuildValidationErrors(err.errors.value, t);
      validationErrors := Some(obj);
    }
    status := err.status;
    body := ErrorBody(originalUrl, now, t(err.message), validationErrors);
  }

  /** The keys of `validationErrors` are exactly the reported paths, each once. */
  lemma ValidationKeysArePaths(errors: seq<FieldError>, obj: seq<Entry>)
    requires Keys(obj) == FirstOccurrences(Paths(errors))
    ensures forall e :: e in errors ==> e.path in Keys(obj)
    ensures forall k :: k in Keys(obj) ==> exists e :: e in errors && e.path == k
    ensures Distinct(Keys(obj))
  {
    var ps := Paths(errors);
    forall e | e in errors
      ensures e.path in Keys(obj)
    {
      var j :| 0 <= j < |errors| && errors[j] == e;
      assert ps[j] == e.path;
    }
    forall k | k in Keys(obj)
      ensures exists e :: e in errors && e.path == k
    {
      var j :| 0 <= j < |ps| && ps[j] == k;
      assert errors[j] in errors;
    }
  }
}
