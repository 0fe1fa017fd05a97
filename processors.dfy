/** The conditional dispatchers: each inspects one key of a response array
    and calls a callback with that key's value, with each element of it, or
    not at all. Each is modelled as the list of arguments the callback
    receives, in call order. */
module Processors {
  import opened Php

  /** The class name `eachIfCollection` tests with `instanceof`. */
  const CollectionClass: string := "Illuminate\\Support\\Collection"

  /** `processIfNotEmpty`: one call with `$response[$key]` when that value
      is set and not empty, none otherwise. */
  function ProcessIfNotEmpty(response: map<string, Value>, key: string): (args: seq<Value>)
    ensures |args| <= 1
    ensures |args| == 1 <==> key in response && !Empty(response[key])
    ensures |args| == 1 ==> args[0] == response[key]
  {
    if !Empty(Lookup(response, key)) then [response[key]] else []
  }

  /** `processIfExists`: one call whenever the key is present, whatever it
      holds (null included). */
  function ProcessIfExists(response: map<string, Value>, key: string): (args: seq<Value>)
    ensures |args| <= 1
    ensures |args| == 1 <==> key in response
    ensures |args| == 1 ==> args[0] == response[key]
  {
    if key in response then [response[key]] else []
  }

  /** The result of `processIfTruthy` as written: the callback's arguments,
      and whether PHP raised "Undefined array key" on the way. */
  datatype Dispatch = Dispatch(args: seq<Value>, undefinedKey: bool)

  /** `processIfTruthy` as written: when `empty()` holds, the second
      disjunct `$response[$key] === true` reads the key even if it is
      absent, which raises the warning (an `ErrorException` under Laravel's
      error handler). */
  function ProcessIfTruthyAsWritten(response: map<string, Value>, key: string): (d: Dispatch)
    ensures d.undefinedKey <==> key !in response
    ensures |d.args| <= 1
    ensures |d.args| == 1 <==> key in response && (!Empty(response[key]) || response[key] == Bool(true))
    ensures |d.args| == 1 ==> d.args[0] == response[key]
  {
    if !Empty(Lookup(response, key)) then Dispatch([response[key]], false)
    else if key !in response then Dispatch([], true)
    else if response[key] == Bool(true) then Dispatch([response[key]], false)
    else Dispatch([], false)
  }

  /** `processIfTruthy` as evidently intended: an absent key reads as null
      without a warning, as in the sibling dispatchers. */
  function ProcessIfTruthy(response: map<string, Value>, key: string): (args: seq<Value>)
    ensures |args| <= 1
    ensures |args| == 1 ==> key in response && args[0] == response[key]
  {
    var v := Lookup(response, key);
    if !Empty(v) || v == Bool(true) then [v] else []
  }

  /** `processIfInstanceOf`: one call when the value is set to an object of
      the given class (or a subclass, or an implementation of the given
      interface). */
  function ProcessIfInstanceOf(response: map<string, Value>, key: string, className: string): (args: seq<Value>)
    ensures |args| <= 1
    ensures |args| == 1 <==> IsSet(response, key) && response[key].Obj? && className in response[key].classes
    ensures |args| == 1 ==> args[0] == response[key]
  {
    if IsSet(response, key) && response[key].Obj? && className in response[key].classes then [response[key]] else []
  }

  /** `eachIfArray`: one call per element, in order, when the value is an
      array; none otherwise. */
  function EachIfArray(response: map<string, Value>, key: string): (args: seq<Value>)
    ensures key in response && response[key].Arr? ==> args == response[key].elems
    ensures !(key in response && response[key].Arr?) ==> args == []
  {
    if IsSet(response, key) && response[key].Arr? then response[key].elems else []
  }

  /** `Collection::each`: call the callback on each element in order, and
      stop right after a call that returns false; `stops(n)` is what the
      callback returns on its call number n (counting from 0), whatever the
      element and whatever state the callback keeps. */
  function EachUntilFalse(elems: seq<Value>, stops: nat -> bool): (args: seq<Value>)
    ensures |args| <= |elems| && args == elems[..|args|]
    ensures forall n :: 0 <= n < |args| - 1 ==> !stops(n)
    ensures |args| < |elems| ==> |args| > 0 && stops(|args| - 1)
    decreases |elems|
  {
    if elems == [] then []
    else if stops(0) then [elems[0]]
    else
      var next: nat -> bool := (n: nat) => stops(n + 1);
      var rest := EachUntilFalse(elems[1..], next);
      assert forall n :: 1 <= n < |rest| ==> !stops(n) by {
        forall n | 1 <= n < |rest| ensures !stops(n) {
          assert !next(n - 1);
        }
      }
      [elems[0]] + rest
  }

  /** `eachIfCollection`: the value is set to a `Collection` (or a
      subclass), whose `each` then runs the callback. */
  function EachIfCollection(response: map<string, Value>, key: string, stops: nat -> bool): (args: seq<Value>)
    ensures !(IsSet(response, key) && response[key].Obj? && CollectionClass in response[key].classes) ==> args == []
    ensures IsSet(response, key) && response[key].Obj? && CollectionClass in response[key].classes ==>
              args == EachUntilFalse(response[key].elems, stops)
  {
    if IsSet(response, key) && response[key].Obj? && CollectionClass in response[key].classes then
      EachUntilFalse(response[key].elems, stops)
    else []
  }

  /** A callback that never returns false sees every element, in order. */
  lemma {:induction false} EachWithoutFalseSeesAll(elems: seq<Value>, stops: nat -> bool)
    requires forall n :: 0 <= n < |elems| ==> !stops(n)
    ensures EachUntilFalse(elems, stops) == elems
    decreases |elems|
  {
    if elems != [] {
      EachWithoutFalseSeesAll(elems[1..], (n: nat) => stops(n + 1));
    }
  }

  /** The callback's answer depends on the call, not on the element: of
      three equal elements, a callback that returns false on its second call
      sees the first two. */
  lemma StopsOnSecondOfEqualElements(x: Value)
    ensures EachUntilFalse([x, x, x], (n: nat) => n == 1) == [x, x]
  {
    var rest := EachUntilFalse([x, x], (n: nat) => n + 1 == 1);
    assert [x, x][1..] == [x];
    assert rest == [x];
    assert [x, x, x][1..] == [x, x];
  }

  /** The `=== true` disjunct adds nothing: `processIfTruthy` fires exactly
      when `processIfNotEmpty` does, with the same argument. */
  lemma TruthyIsNotEmpty(response: map<string, Value>, key: string)
    ensures ProcessIfTruthy(response, key) == ProcessIfNotEmpty(response, key)
  {
  }

  /** As written, `processIfTruthy` dispatches like `processIfNotEmpty`, but
      an absent key raises "Undefined array key" instead of passing quietly. */
  lemma TruthyAsWrittenWarnsOnAbsentKey(response: map<string, Value>, key: string)
    ensures ProcessIfTruthyAsWritten(response, key).args == ProcessIfNotEmpty(response, key)
    ensures ProcessIfTruthyAsWritten(response, key).undefinedKey <==> key !in response
  {
  }

  /** The smallest input that shows it: an empty response. */
  lemma TruthyAsWrittenOnEmptyResponse()
    ensures ProcessIfTruthyAsWritten(map[], "data") == Dispatch([], true)
    ensures ProcessIfTruthy(map[], "data") == []
  {
  }

  /** Whatever `processIfNotEmpty` or `processIfInstanceOf` passes,
      `processIfExists` passes too. */
  lemma ExistsCoversNotEmptyAndInstanceOf(response: map<string, Value>, key: string, className: string)
    ensures |ProcessIfNotEmpty(response, key)| == 1 ==> ProcessIfExists(response, key) == ProcessIfNotEmpty(response, key)
    ensures |ProcessIfInstanceOf(response, key, className)| == 1 ==> ProcessIfExists(response, key) == ProcessIfInstanceOf(response, key, className)
  {
  }

  /** A key holding a float: `processIfExists` fires; `processIfNotEmpty`
      and `processIfTruthy` fire exactly when it is not zero, so a `0.0`
      in a response reaches only `processIfExists`. */
  lemma FloatFiresUnlessZero(response: map<string, Value>, key: string, f: real)
    requires key in response && response[key] == Float(f)
    ensures ProcessIfExists(response, key) == [Float(f)]
    ensures ProcessIfNotEmpty(response, key) == (if f == 0.0 then [] else [Float(f)])
    ensures ProcessIfTruthy(response, key) == ProcessIfNotEmpty(response, key)
    ensures ProcessIfTruthyAsWritten(response, key) == Dispatch(ProcessIfNotEmpty(response, key), false)
  {
  }

  /** A key holding null: `processIfExists` fires with null, the others do
      not fire. */
  lemma NullFiresOnlyExists(response: map<string, Value>, key: string, className: string, stops: nat -> bool)
    requires key in response && response[key] == Null
    ensures ProcessIfExists(response, key) == [Null]
    ensures ProcessIfNotEmpty(response, key) == [] && ProcessIfTruthy(response, key) == []
    ensures ProcessIfInstanceOf(response, key, className) == []
    ensures EachIfArray(response, key) == [] && EachIfCollection(response, key, stops) == []
  {
  }
}
