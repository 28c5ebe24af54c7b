/** The validator `createValidator` returns: merge the defaults into the
    input, walk the input beside the spec rejecting the first key the spec
    does not declare, then run the shape check and return the merged input.
    The spec and the input are both modelled as `Value` trees. */
module Valida {
  import opened Wrappers
  import opened Lists
  import opened Utils

  /** A value as the walk sees it: a plain object with its own keys in order,
      anything else (a predicate, a string, an array, ...), or `undefined`,
      which is what reading an absent key gives. The keys of an object are
      taken to be distinct, as `Object.keys` returns them; `Get` reads the
      first field with a key. */
  datatype Value = Object(fields: seq<(string, Value)>) | Other(kind: string) | Undefined

  /** `Object.keys(v)`. */
  function Keys(v: Value): (r: seq<string>)
    requires v.Object?
    ensures |r| == |v.fields|
    ensures forall i :: 0 <= i < |r| ==> r[i] == v.fields[i].0
  {
    seq(|v.fields|, i requires 0 <= i < |v.fields| => v.fields[i].0)
  }

  /** `v[key]` on a plain object: the value of the key, `undefined` when the
      object does not have it. */
  function Get(v: Value, key: string): Value
    requires v.Object?
  {
    var k := IndexOf(key, Keys(v));
    if k < |v.fields| then v.fields[k].1 else Undefined
  }

  /** The error the walk throws: the key, the path of the object holding it,
      and the keys the spec declares there. */
  datatype KeyError = UnexpectedKey(key: string, path: seq<string>, validKeys: seq<string>)

  /** The first loop of the walk: the position of the first key that is not
      among `validKeys`, or `|keys|` when all are. */
  function FirstExtraIndex(keys: seq<string>, validKeys: seq<string>): (k: nat)
    ensures k <= |keys|
    ensures forall i :: 0 <= i < k ==> keys[i] in validKeys
    ensures k < |keys| ==> keys[k] !in validKeys
  {
    if keys == [] || keys[0] !in validKeys then 0
    else FirstExtraIndex(keys[1..], validKeys) + 1
  }

  /** What `validateKeys(input, spec, path)` throws, if anything. Nothing
      unless both are plain objects; then the first input key the spec does
      not declare; then whatever the walk of each spec key's values throws,
      in spec key order. */
  function FirstUnexpected(input: Value, spec: Value, path: seq<string>): Option<KeyError>
    decreases spec, 1
  {
    if !input.Object? || !spec.Object? then None
    else
      var inputKeys := Keys(input);
      var k := FirstExtraIndex(inputKeys, Keys(spec));
      if k < |inputKeys| then Some(UnexpectedKey(inputKeys[k], path, Keys(spec)))
      else FirstUnexpectedFrom(input, spec, path, 0)
  }

  /** The second loop of the walk, from the spec key at position `i` on. */
  function FirstUnexpectedFrom(input: Value, spec: Value, path: seq<string>, i: nat): Option<KeyError>
    requires input.Object? && spec.Object?
    decreases spec, 0, |spec.fields| - i
  {
    if i >= |spec.fields| then None
    else
      var key := spec.fields[i].0;
      assert Keys(spec)[i] == key;
      var child := spec.fields[IndexOf(key, Keys(spec))].1;
      match FirstUnexpected(Get(input, key), child, path + [key])
      case Some(e) => Some(e)
      case None => FirstUnexpectedFrom(input, spec, path, i + 1)
  }

  /** `validateKeys(input, curSpec, curPath)`: all keys of this level are
      checked before any recursion; the thrown `TypeError` is the returned
      error. */
  method ValidateKeys(input: Value, spec: Value, path: seq<string>) returns (err: Option<KeyError>)
    ensures err == FirstUnexpected(input, spec, path)
    decreases spec
  {
    if !input.Object? || !spec.Object? {
      return None;
    }
    var validKeys := Keys(spec);
    var inputKeys := Keys(input);
    var k := 0;
    while k < |inputKeys|
      invariant 0 <= k <= |inputKeys|
      invariant forall i :: 0 <= i < k ==> inputKeys[i] in validKeys
    {
      var key := inputKeys[k];
      if key !in validKeys {
        FirstExtraIndexIs(inputKeys, validKeys, k);
        return Some(UnexpectedKey(key, path, validKeys));
      }
      k := k + 1;
    }
    FirstExtraIndexIs(inputKeys, validKeys, k);
    var i := 0;
    while i < |validKeys|
      invariant 0 <= i <= |validKeys|
      invariant FirstUnexpected(input, spec, path) == FirstUnexpectedFrom(input, spec, path, i)
    {
      var key := validKeys[i];
      var child := spec.fields[IndexOf(key, validKeys)].1;
      err := ValidateKeys(Get(input, key), child, path + [key]);
      if err.Some? {
        return err;
      }
      i := i + 1;
    }
    return None;
  }

  /** Any position that meets the contract of `FirstExtraIndex` is it. */
  lemma {:induction false} FirstExtraIndexIs(keys: seq<string>, validKeys: seq<string>, k: nat)
    requires k <= |keys|
    requires forall i :: 0 <= i < k ==> keys[i] in validKeys
    requires k < |keys| ==> keys[k] !in validKeys
    ensures FirstExtraIndex(keys, validKeys) == k
  {
    if keys != [] && keys[0] in validKeys {
      FirstExtraIndexIs(keys[1..], validKeys, k - 1);
    }
  }

  // ---- what a clean walk guarantees ----

  /** The node at `path`: follow the keys down from the root. */
  function At(v: Value, path: seq<string>): Value
    decreases |path|
  {
    if path == [] then v
    else if v.Object? then At(Get(v, path[0]), path[1..])
    else Undefined
  }

  /** The walk gets to `path`: along it both sides are plain objects and each
      key is one the spec declares. */
  predicate Reached(input: Value, spec: Value, path: seq<string>)
    decreases |path|
  {
    path == [] ||
    (input.Object? && spec.Object? && path[0] in Keys(spec)
     && Reached(Get(input, path[0]), Get(spec, path[0]), path[1..]))
  }

  /** Every key of every plain-object input node the walk reaches is a key of
      the spec node beside it. */
  ghost predicate Conforms(input: Value, spec: Value) {
    forall path :: Reached(input, spec, path) && At(input, path).Object? && At(spec, path).Object? ==>
      forall k :: k in Keys(At(input, path)) ==> k in Keys(At(spec, path))
  }

  /** The child the walk visits for a spec key is the spec's value for it. */
  lemma ChildIsGet(spec: Value, i: nat)
    requires spec.Object? && i < |spec.fields|
    ensures spec.fields[i].0 in Keys(spec)
    ensures spec.fields[IndexOf(spec.fields[i].0, Keys(spec))].1 == Get(spec, spec.fields[i].0)
  {
    assert Keys(spec)[i] == spec.fields[i].0;
  }

  /** Nothing thrown from position `i` on: nothing thrown below any of the
      spec keys from `i` on. */
  lemma {:induction false} FromNone(input: Value, spec: Value, path: seq<string>, i: nat, n: nat)
    requires input.Object? && spec.Object? && i <= n < |spec.fields|
    requires FirstUnexpectedFrom(input, spec, path, i).None?
    ensures var key := spec.fields[n].0;
      FirstUnexpected(Get(input, key), Get(spec, key), path + [key]).None?
    decreases n - i
  {
    ChildIsGet(spec, i);
    if i < n {
      FromNone(input, spec, path, i + 1, n);
    }
  }

  /** Something thrown from position `i` on: thrown below one spec key. */
  lemma {:induction false} FromSome(input: Value, spec: Value, path: seq<string>, i: nat) returns (n: nat)
    requires input.Object? && spec.Object?
    requires FirstUnexpectedFrom(input, spec, path, i).Some?
    ensures i <= n < |spec.fields|
    ensures var key := spec.fields[n].0;
      FirstUnexpected(Get(input, key), Get(spec, key), path + [key]) == FirstUnexpectedFrom(input, spec, path, i)
    ensures forall m :: i <= m < n ==> ChildClean(input, spec, path, m)
    decreases |spec.fields| - i
  {
    ChildIsGet(spec, i);
    var key := spec.fields[i].0;
    if FirstUnexpected(Get(input, key), Get(spec, key), path + [key]).Some? {
      n := i;
    } else {
      n := FromSome(input, spec, path, i + 1);
      forall m | i <= m < n
        ensures ChildClean(input, spec, path, m)
      {
        if m == i {
          assert ChildClean(input, spec, path, i);
        }
      }
    }
  }

  /** The walk below the spec key at position `m` throws nothing. */
  predicate ChildClean(input: Value, spec: Value, path: seq<string>, m: nat)
    requires input.Object? && spec.Object? && m < |spec.fields|
  {
    var key := spec.fields[m].0;
    FirstUnexpected(Get(input, key), Get(spec, key), path + [key]).None?
  }

  /** A walk that throws nothing leaves every reached input node within its
      spec node. */
  lemma {:induction false} NoErrorConforms(input: Value, spec: Value, p: seq<string>, path: seq<string>)
    requires FirstUnexpected(input, spec, p).None?
    requires Reached(input, spec, path) && At(input, path).Object? && At(spec, path).Object?
    ensures forall k :: k in Keys(At(input, path)) ==> k in Keys(At(spec, path))
    decreases |path|
  {
    if path == [] {
      var k := FirstExtraIndex(Keys(input), Keys(spec));
      assert k == |Keys(input)|;
      forall key | key in Keys(input) ensures key in Keys(spec) {
        var j :| 0 <= j < |Keys(input)| && Keys(input)[j] == key;
      }
    } else {
      var key := path[0];
      var n := IndexOf(key, Keys(spec));
      assert spec.fields[n].0 == key;
      FromNone(input, spec, p, 0, n);
      NoErrorConforms(Get(input, key), Get(spec, key), p + [key], path[1..]);
    }
  }

  /** A thrown error names an object the walk reaches, a key that object has
      and the spec node there lacks, and the spec node's keys; its path is the
      starting path followed by the path to that object. The error is below
      the starting level only when every key at that level is declared. */
  lemma {:induction false} ErrorLocated(input: Value, spec: Value, p: seq<string>) returns (q: seq<string>)
    requires FirstUnexpected(input, spec, p).Some?
    ensures var e := FirstUnexpected(input, spec, p).value;
      && e.path == p + q
      && Reached(input, spec, q) && At(input, q).Object? && At(spec, q).Object?
      && e.key in Keys(At(input, q)) && e.key !in Keys(At(spec, q))
      && e.validKeys == Keys(At(spec, q))
    ensures q != [] ==> forall k :: k in Keys(input) ==> k in Keys(spec)
    ensures var e := FirstUnexpected(input, spec, p).value; var keys := Keys(At(input, q));
      forall j :: 0 <= j < IndexOf(e.key, keys) ==> keys[j] in Keys(At(spec, q))
    ensures forall k :: 0 <= k < |q| ==> Declared(At(input, q[..k]), At(spec, q[..k]))
    decreases spec
  {
    var inputKeys := Keys(input);
    var k := FirstExtraIndex(inputKeys, Keys(spec));
    if k < |inputKeys| {
      q := [];
      assert p + q == p;
      IndexOfUnique(inputKeys[k], inputKeys, k);
    } else {
      var n := FromSome(input, spec, p, 0);
      var key := spec.fields[n].0;
      ChildIsGet(spec, n);
      var q' := ErrorLocated(Get(input, key), Get(spec, key), p + [key]);
      q := [key] + q';
      assert q[0] == key && q[1..] == q';
      assert p + [key] + q' == p + q;
      assert At(input, q) == At(Get(input, key), q');
      assert At(spec, q) == At(Get(spec, key), q');
      assert Reached(input, spec, q);
      AllKeysDeclared(inputKeys, Keys(spec), k);
      DeclaredAlong(input, spec, key, q');
    }
  }

  /** Keys declared at the top and at every level above `q'` below `key`
      are declared at every level above `[key] + q'`. */
  lemma DeclaredAlong(input: Value, spec: Value, key: string, q': seq<string>)
    requires Declared(input, spec)
    requires forall k :: 0 <= k < |q'| ==> Declared(At(Get(input, key), q'[..k]), At(Get(spec, key), q'[..k]))
    ensures forall k :: 0 <= k < |[key] + q'| ==> Declared(At(input, ([key] + q')[..k]), At(spec, ([key] + q')[..k]))
  {
    var q := [key] + q';
    forall i | 0 <= i < |q|
      ensures Declared(At(input, q[..i]), At(spec, q[..i]))
    {
      if i > 0 {
        assert q[..i][0] == key && q[..i][1..] == q'[..i - 1];
      }
    }
  }

  /** Every key of `input` is declared by `spec`, both being objects. */
  predicate Declared(input: Value, spec: Value) {
    input.Object? && spec.Object? && forall x :: x in Keys(input) ==> x in Keys(spec)
  }

  lemma AllKeysDeclared(keys: seq<string>, validKeys: seq<string>, k: nat)
    requires k == |keys| && forall i :: 0 <= i < k ==> keys[i] in validKeys
    ensures forall x :: x in keys ==> x in validKeys
  {
  }

  /** The walk throws nothing exactly when every reached input node stays
      within its spec node. */
  lemma NoErrorIffConforms(input: Value, spec: Value, p: seq<string>)
    ensures FirstUnexpected(input, spec, p).None? <==> Conforms(input, spec)
  {
    if FirstUnexpected(input, spec, p).None? {
      forall path | Reached(input, spec, path) && At(input, path).Object? && At(spec, path).Object?
        ensures forall k :: k in Keys(At(input, path)) ==> k in Keys(At(spec, path))
      {
        NoErrorConforms(input, spec, p, path);
      }
    } else {
      var q := ErrorLocated(input, spec, p);
    }
  }

  // ---- the message ----

  /** `` at path `a.b` `` for a non-empty path, nothing for the root. */
  function AtPath(path: seq<string>): string {
    if |path| > 0 then " at path `" + Join(path, '.') + "`" else ""
  }

  /** The path fragment is empty exactly at the root, and otherwise names the
      path so that splitting it on `.` gives the path back when no key holds
      a dot. */
  lemma AtPathNamesPath(path: seq<string>)
    ensures AtPath(path) == "" <==> path == []
    ensures path != [] && (forall i :: 0 <= i < |path| ==> '.' !in path[i]) ==>
      var dotted := AtPath(path)[|" at path `"|..|AtPath(path)| - 1];
      AtPath(path) == " at path `" + dotted + "`" && Split(dotted, '.') == path
  {
    if path != [] {
      var dotted := Join(path, '.');
      var s := AtPath(path);
      assert s[|" at path `"|..|s| - 1] == dotted;
      if forall i :: 0 <= i < |path| ==> '.' !in path[i] {
        SplitJoin(path, '.');
      }
    }
  }

  /** The `TypeError` message the walk throws; `suggest` stands for
      `shortestLevenshteinDistance`, which is not part of this model. */
  function KeyErrorMessage(e: KeyError, suggest: (seq<string>, string) -> string): string {
    "Did not expect property `" + e.key + "`" + AtPath(e.path) + " to exist. Did you mean '"
      + suggest(e.validKeys, e.key) + "'?"
  }

  /** The message names the unexpected key between backticks, followed by
      the path fragment, and ends with the suggestion in quotes. */
  lemma KeyErrorMessageNamesKey(e: KeyError, suggest: (seq<string>, string) -> string)
    ensures var msg := KeyErrorMessage(e, suggest);
      var head := "Did not expect property `" + e.key + "`" + AtPath(e.path);
      && |head| <= |msg| && msg[..|head|] == head
      && msg[|msg| - 2..] == "'?"
      && (e.path == [] ==> msg[..|head|] == "Did not expect property `" + e.key + "`")
  {
    var msg := KeyErrorMessage(e, suggest);
    var head := "Did not expect property `" + e.key + "`" + AtPath(e.path);
    var tail := " to exist. Did you mean '" + suggest(e.validKeys, e.key) + "'?";
    assert msg == head + tail;
    AtPathNamesPath(e.path);
  }

  // ---- the validator ----

  /** `defaultArrayMerge(target, source)`: the incoming array whenever there
      is one (an empty array is truthy too), the target only when it is
      absent. */
  function DefaultArrayMerge(target: seq<Value>, source: Option<seq<Value>>): (r: seq<Value>)
    ensures r == target || (source.Some? && r == source.value)
    ensures source.Some? ==> r == source.value
  {
    if source.Some? then source.value else target
  }

  /** The input the checks run on: the defaults merged with the input when
      there are defaults, the input itself otherwise. `merge` stands for
      `deepmerge` configured with the array merge. */
  function ResolvedInput(defaults: Option<Value>, merge: (Value, Value) -> Value, input: Value): Value {
    if defaults.Some? then merge(defaults.value, input) else input
  }

  /** Why a validation failed: the walk's error, or the shape check's, with
      its message rewritten by `formatMessage`. */
  datatype ValidationError = KeyErr(error: KeyError) | ShapeErr(message: string)

  /** `new TypeError(formatMessage(err)).message`: no formatted message
      leaves the empty message. */
  function ShapeErrorMessage(err: JsError): string {
    match FormatMessage(Some(err))
    case Some(m) => m
    case None => ""
  }

  /** The function `createValidator` returns, called on `input`. `shapeCheck`
      stands for `ow(value, ow.object.partialShape(spec))`: the error it
      throws, if any. */
  method Validate(spec: Value, defaults: Option<Value>, merge: (Value, Value) -> Value,
                  shapeCheck: Value -> Option<JsError>, input: Value)
    returns (r: Result<Value, ValidationError>)
    ensures var resolved := ResolvedInput(defaults, merge, input);
      && (r.Ok? <==> Conforms(resolved, spec) && shapeCheck(resolved).None?)
      && (r.Ok? ==> r.value == resolved)
      && (!Conforms(resolved, spec) ==> r.Err? && r.error.KeyErr? && Some(r.error.error) == FirstUnexpected(resolved, spec, []))
      && (Conforms(resolved, spec) && shapeCheck(resolved).Some? ==>
            r == Err(ShapeErr(ShapeErrorMessage(shapeCheck(resolved).value))))
    ensures defaults.None? && r.Ok? ==> r.value == input
  {
    var resolvedInput := if defaults.Some? then merge(defaults.value, input) else input;
    NoErrorIffConforms(resolvedInput, spec, []);
    var keyError := ValidateKeys(resolvedInput, spec, []);
    if keyError.Some? {
      return Err(KeyErr(keyError.value));
    }
    match shapeCheck(resolvedInput)
    case Some(err) =>
      return Err(ShapeErr(ShapeErrorMessage(err)));
    case None =>
      return Ok(resolvedInput);
  }
}
