/** The pure part of the `partialShape` and `exactShape` hooks: the keys each
    one requires, the validator it adds (suggest a key, or pass), and the
    message that validator fails with. The hooks call the same key suggester
    as `suggestKey` (`closestMatrix` and `validateKeys` in the hook file are
    copies of it), so they are modelled by the `SuggestKey` module. */
module DecorateOw {
  import opened Wrappers
  import opened Lists
  import opened EditDistance
  import opened SuggestKey

  /** One entry of a shape: the key and whether its predicate is marked
      optional (`context.optional`). */
  datatype Field = Field(key: string, optional: bool)

  /** `R.keys(shape)`: every key, in shape order. */
  function ShapeKeys(shape: seq<Field>): (r: seq<string>)
    ensures |r| == |shape|
    ensures forall i :: 0 <= i < |r| ==> r[i] == shape[i].key
  {
    seq(|shape|, i requires 0 <= i < |shape| => shape[i].key)
  }

  /** The reducer of `partialShape`: an optional field adds nothing, any
      other field appends its key. */
  function KeepRequired(keys: seq<string>, field: Field): seq<string> {
    if field.optional then keys else keys + [field.key]
  }

  /** `R.reduce(reducer, acc, pairs)`: a left fold over the shape's pairs. */
  function ReduceRequired(acc: seq<string>, fields: seq<Field>): seq<string>
    decreases |fields|
  {
    if fields == [] then acc else ReduceRequired(KeepRequired(acc, fields[0]), fields[1..])
  }

  /** The keys the `partialShape` hook requires. */
  function PartialShapeRequiredKeys(shape: seq<Field>): seq<string> {
    ReduceRequired([], shape)
  }

  /** The keys the `exactShape` hook requires: all of them, optional or not. */
  function ExactShapeRequiredKeys(shape: seq<Field>): seq<string> {
    ShapeKeys(shape)
  }

  /** Reference definition: the keys of the non-optional fields, in order. */
  function NonOptionalKeys(fields: seq<Field>): (r: seq<string>)
    ensures forall k :: k in r <==> exists i :: 0 <= i < |fields| && fields[i].key == k && !fields[i].optional
  {
    if fields == [] then []
    else
      var rest := NonOptionalKeys(fields[1..]);
      assert forall i :: 1 <= i < |fields| ==> fields[i] == fields[1..][i - 1];
      if fields[0].optional then rest else [fields[0].key] + rest
  }

  /** The fold appends the non-optional keys to its start value. */
  lemma {:induction false} ReduceRequiredAppends(acc: seq<string>, fields: seq<Field>)
    ensures ReduceRequired(acc, fields) == acc + NonOptionalKeys(fields)
    decreases |fields|
  {
    if fields != [] {
      ReduceRequiredAppends(KeepRequired(acc, fields[0]), fields[1..]);
      if !fields[0].optional {
        assert acc + [fields[0].key] + NonOptionalKeys(fields[1..]) == acc + ([fields[0].key] + NonOptionalKeys(fields[1..]));
      } else {
        assert KeepRequired(acc, fields[0]) == acc;
      }
    }
  }

  /** `partialShape` requires exactly the keys of the fields not marked
      optional, in shape order. */
  lemma PartialShapeRequiredKeysSpec(shape: seq<Field>)
    ensures PartialShapeRequiredKeys(shape) == NonOptionalKeys(shape)
    ensures forall k :: k in PartialShapeRequiredKeys(shape) <==>
      exists i :: 0 <= i < |shape| && shape[i].key == k && !shape[i].optional
  {
    ReduceRequiredAppends([], shape);
    assert [] + NonOptionalKeys(shape) == NonOptionalKeys(shape);
  }

  /** Every key `partialShape` requires, `exactShape` requires too; with no
      optional field the two lists coincide. */
  lemma PartialWithinExact(shape: seq<Field>)
    ensures forall k :: k in PartialShapeRequiredKeys(shape) ==> k in ExactShapeRequiredKeys(shape)
    ensures (forall i :: 0 <= i < |shape| ==> !shape[i].optional) ==>
      PartialShapeRequiredKeys(shape) == ExactShapeRequiredKeys(shape)
  {
    PartialShapeRequiredKeysSpec(shape);
    forall k | k in PartialShapeRequiredKeys(shape) ensures k in ExactShapeRequiredKeys(shape) {
      var i :| 0 <= i < |shape| && shape[i].key == k && !shape[i].optional;
      assert ExactShapeRequiredKeys(shape)[i] == k;
    }
    if forall i :: 0 <= i < |shape| ==> !shape[i].optional {
      AllRequired(shape);
    }
  }

  lemma {:induction false} AllRequired(fields: seq<Field>)
    requires forall i :: 0 <= i < |fields| ==> !fields[i].optional
    ensures NonOptionalKeys(fields) == ShapeKeys(fields)
  {
    if fields != [] {
      AllRequired(fields[1..]);
      assert ShapeKeys(fields) == [fields[0].key] + ShapeKeys(fields[1..]);
    }
  }

  // ---- the message ----

  const MessagePrefix: string := "Extraneous property `"
  const MessageIn: string := "` in "
  const MessageAsk: string := " may be a mistake. Did you mean `"
  const MessageEnd: string := "`?"

  /** The failure message of both hooks, for an object labelled `objectLabel` (such as "object `options`"). */
  function SuggestionMessage(objectLabel: string, missingKey: string, closestExtraneousKey: string): string {
    MessagePrefix + closestExtraneousKey + MessageIn + objectLabel + MessageAsk + missingKey + MessageEnd
  }

  /** The length of the longest suffix of `s` without a backtick. */
  function TrailingPlain(s: string): (n: nat)
    ensures n <= |s|
  {
    if s == [] || s[|s| - 1] == '`' then 0 else TrailingPlain(s[..|s| - 1]) + 1
  }

  lemma {:induction false} TrailingPlainAfterBacktick(x: string, y: string)
    requires '`' !in y
    ensures TrailingPlain(x + "`" + y) == |y|
    decreases |y|
  {
    var s := x + "`" + y;
    if y == [] {
      assert s[|s| - 1] == '`';
    } else {
      assert s[|s| - 1] == y[|y| - 1];
      assert s[..|s| - 1] == x + "`" + y[..|y| - 1];
      TrailingPlainAfterBacktick(x, y[..|y| - 1]);
    }
  }

  /** The text between a known `prefix` and a known `suffix`, if `s` has
      them. */
  function Between(s: string, prefix: string, suffix: string): (r: Option<string>)
    ensures r.Some? ==> s == prefix + r.value + suffix
  {
    if |s| < |prefix| + |suffix| || s[..|prefix|] != prefix || s[|s| - |suffix|..] != suffix then None
    else
      var r := s[|prefix|..|s| - |suffix|];
      assert s == s[..|prefix|] + r + s[|s| - |suffix|..];
      Some(r)
  }

  lemma BetweenRoundTrip(prefix: string, x: string, suffix: string)
    ensures Between(prefix + x + suffix, prefix, suffix) == Some(x)
  {
    var s := prefix + x + suffix;
    assert s[..|prefix|] == prefix;
    assert s[|s| - |suffix|..] == suffix;
    assert s[|prefix|..|s| - |suffix|] == x;
  }

  /** Reads back a message built as `prefix + e + inner + label + ask + m +
      end`: `e` runs to the first backtick, `m` back to the last one, and the
      label is what lies between `inner` and `ask`. */
  function ParseMessage(msg: string, prefix: string, inner: string, ask: string, end: string)
    : Option<(string, string, string)>
  {
    match Between(msg, prefix, end)
    case None => None
    case Some(x) =>
      var e := IndexOf('`', x);
      var m := TrailingPlain(x);
      if e > |x| - m then None
      else
        match Between(x[e..|x| - m], inner, ask)
        case None => None
        case Some(objectLabel) => Some((objectLabel, x[|x| - m..], x[..e]))
  }

  /** Where the keys sit in the text between prefix and end. */
  lemma KeysPositions(e: string, inner: string, objectLabel: string, ask: string, m: string)
    requires |inner| > 0 && inner[0] == '`' && |ask| > 0 && ask[|ask| - 1] == '`'
    requires '`' !in m && '`' !in e
    ensures var x := e + inner + objectLabel + ask + m;
      && IndexOf('`', x) == |e| && TrailingPlain(x) == |m|
  {
    var x := e + inner + objectLabel + ask + m;
    assert x[..|e|] == e && x[|e|] == '`';
    IndexOfUnique('`', x, |e|);
    var before := e + inner + objectLabel + ask[..|ask| - 1];
    assert ask == ask[..|ask| - 1] + "`";
    assert x == before + "`" + m;
    TrailingPlainAfterBacktick(before, m);
  }

  lemma KeysSlices(e: string, middle: string, m: string)
    ensures var x := e + middle + m;
      && x[|e|..|x| - |m|] == middle && x[..|e|] == e && x[|x| - |m|..] == m
  {
  }

  lemma MessageTemplateRoundTrip(prefix: string, inner: string, ask: string, end: string, objectLabel: string, m: string, e: string)
    requires |inner| > 0 && inner[0] == '`' && |ask| > 0 && ask[|ask| - 1] == '`'
    requires '`' !in m && '`' !in e
    ensures ParseMessage(prefix + e + inner + objectLabel + ask + m + end, prefix, inner, ask, end) == Some((objectLabel, m, e))
  {
    var middle := inner + objectLabel + ask;
    var x := e + middle + m;
    assert prefix + e + inner + objectLabel + ask + m + end == prefix + x + end;
    assert x == e + inner + objectLabel + ask + m;
    BetweenRoundTrip(prefix, x, end);
    KeysPositions(e, inner, objectLabel, ask, m);
    KeysSlices(e, middle, m);
    BetweenRoundTrip(inner, objectLabel, ask);
  }

  /** Reads a suggestion message back into (label, missing key, extraneous
      key). */
  function ParseSuggestionMessage(msg: string): Option<(string, string, string)> {
    ParseMessage(msg, MessagePrefix, MessageIn, MessageAsk, MessageEnd)
  }

  /** For keys without backticks the message can be read back into its label
      and keys, so it determines all three. The label may hold backticks, as
      in "object `options`". */
  lemma SuggestionMessageRoundTrip(objectLabel: string, missingKey: string, closestExtraneousKey: string)
    requires '`' !in missingKey && '`' !in closestExtraneousKey
    ensures ParseSuggestionMessage(SuggestionMessage(objectLabel, missingKey, closestExtraneousKey))
      == Some((objectLabel, missingKey, closestExtraneousKey))
  {
    assert MessageIn[0] == '`' && MessageAsk[|MessageAsk| - 1] == '`';
    MessageTemplateRoundTrip(MessagePrefix, MessageIn, MessageAsk, MessageEnd, objectLabel, missingKey, closestExtraneousKey);
  }

  /** Different keys give different messages. */
  lemma SuggestionMessageInjective(objectLabel: string, m: string, e: string, m': string, e': string)
    requires '`' !in m && '`' !in e && '`' !in m' && '`' !in e'
    requires SuggestionMessage(objectLabel, m, e) == SuggestionMessage(objectLabel, m', e')
    ensures m == m' && e == e'
  {
    SuggestionMessageRoundTrip(objectLabel, m, e);
    SuggestionMessageRoundTrip(objectLabel, m', e');
  }

  // ---- the added validator ----

  /** The validator a hook adds for an object `objectLabel` with `testKeys`:
      nothing (it returns `true`) when `validateKeys` has no suggestion,
      otherwise the message naming the suggested pair. */
  function HookResult(requiredKeys: seq<string>, testKeys: seq<string>, objectLabel: string): (r: Option<string>)
    ensures r.Some? ==> exists m, e :: (Mismatch(requiredKeys, testKeys, m, e)
      && 0 < Distance(m, e) <= DefaultMaxDistance && r.value == SuggestionMessage(objectLabel, m, e))
  {
    match SuggestKey.SuggestKey(requiredKeys, testKeys)
    case NoSuggestion => None
    case Suggest(m, e) =>
      assert Mismatch(requiredKeys, testKeys, m, e);
      Some(SuggestionMessage(objectLabel, m, e))
  }

  /** The added validator passes exactly when no missing key is within
      distance 2 of an extraneous key. */
  lemma HookResultPasses(requiredKeys: seq<string>, testKeys: seq<string>, objectLabel: string)
    ensures HookResult(requiredKeys, testKeys, objectLabel).None? <==>
      forall m, e :: Mismatch(requiredKeys, testKeys, m, e) ==> Distance(m, e) > DefaultMaxDistance
  {
    SuggestKeyNoSuggestionIff(requiredKeys, testKeys);
  }

  /** A single missing/extraneous pair within distance 2: the validator
      fails with the message naming exactly that pair. */
  lemma HookResultSinglePair(requiredKeys: seq<string>, testKeys: seq<string>, objectLabel: string, m: string, e: string)
    requires Mismatch(requiredKeys, testKeys, m, e) && Distance(m, e) <= DefaultMaxDistance
    requires forall m', e' :: Mismatch(requiredKeys, testKeys, m', e') && (m', e') != (m, e) ==>
      Distance(m', e') > DefaultMaxDistance
    ensures HookResult(requiredKeys, testKeys, objectLabel) == Some(SuggestionMessage(objectLabel, m, e))
  {
    SuggestKeySinglePair(requiredKeys, testKeys, m, e);
  }

  /** The validator the `partialShape` hook adds. */
  function PartialShapeHook(shape: seq<Field>, testKeys: seq<string>, objectLabel: string): Option<string> {
    HookResult(PartialShapeRequiredKeys(shape), testKeys, objectLabel)
  }

  /** The validator the `exactShape` hook adds. */
  function ExactShapeHook(shape: seq<Field>, testKeys: seq<string>, objectLabel: string): Option<string> {
    HookResult(ExactShapeRequiredKeys(shape), testKeys, objectLabel)
  }

  /** Every key required by `partialShape` present: its validator passes,
      whatever optional keys are missing or extra keys present. */
  lemma PartialShapeHookPassesWhenRequiredPresent(shape: seq<Field>, testKeys: seq<string>, objectLabel: string)
    requires forall i :: 0 <= i < |shape| && !shape[i].optional ==> shape[i].key in testKeys
    ensures PartialShapeHook(shape, testKeys, objectLabel).None?
  {
    PartialShapeRequiredKeysSpec(shape);
    HookResultPasses(PartialShapeRequiredKeys(shape), testKeys, objectLabel);
  }

  /** Every shape key present: the `exactShape` validator passes, so an
      extra key is left to the library's own check. */
  lemma ExactShapeHookPassesWhenAllPresent(shape: seq<Field>, testKeys: seq<string>, objectLabel: string)
    requires forall i :: 0 <= i < |shape| ==> shape[i].key in testKeys
    ensures ExactShapeHook(shape, testKeys, objectLabel).None?
  {
    HookResultPasses(ExactShapeRequiredKeys(shape), testKeys, objectLabel);
  }

  // ---- the documented scenarios ----

  /** The `partialShape` reducer on an optional field followed by two
      required ones. */
  lemma PartialKeysOfThree(foo: string, bar: string, baz: string)
    ensures PartialShapeRequiredKeys([Field(foo, true), Field(bar, false), Field(baz, false)]) == [bar, baz]
  {
    var shape := [Field(foo, true), Field(bar, false), Field(baz, false)];
    assert shape[1..][1..] == [Field(baz, false)] && shape[1..][1..][1..] == [];
    assert KeepRequired([], shape[1..][0]) == [bar];
    assert ReduceRequired([], shape) == ReduceRequired([], shape[1..]) == ReduceRequired([bar], shape[1..][1..]) == [bar, baz];
  }

  /** Keys bar and baz required, keys foo, bar, a candidate `near` and an
      unrelated `other` given: the validator suggests baz for `near`
      exactly when `near` is within distance 2 of it. */
  lemma RequiredKeysNearMissAmongOthers(foo: string, bar: string, baz: string, near: string, other: string, objectLabel: string)
    requires baz != foo && baz != bar && baz != near && baz != other
    requires bar != foo && bar != near && bar != other
    requires Distance(baz, foo) > DefaultMaxDistance && Distance(baz, other) > DefaultMaxDistance
    ensures HookResult([bar, baz], [foo, bar, near, other], objectLabel)
      == if Distance(baz, near) <= DefaultMaxDistance then Some(SuggestionMessage(objectLabel, baz, near)) else None
  {
    var valid := [bar, baz];
    var test := [foo, bar, near, other];
    if Distance(baz, near) <= DefaultMaxDistance {
      forall m, e | Mismatch(valid, test, m, e) && (m, e) != (baz, near)
        ensures Distance(m, e) > DefaultMaxDistance
      {
        assert m == baz;
        assert e == foo || e == other;
      }
      assert Mismatch(valid, test, baz, near);
      HookResultSinglePair(valid, test, objectLabel, baz, near);
    } else {
      forall m, e | Mismatch(valid, test, m, e) ensures Distance(m, e) > DefaultMaxDistance {
        assert m == baz;
      }
      HookResultPasses(valid, test, objectLabel);
    }
  }

  /** `partialShape({foo: optional, bar, baz})` seen with keys foo, bar, a
      candidate `near` for baz and an unrelated `other`: the hook suggests
      baz for `near` exactly when `near` is within distance 2 of it. */
  lemma PartialShapeNearMiss(foo: string, bar: string, baz: string, near: string, other: string, objectLabel: string)
    requires baz != foo && baz != bar && baz != near && baz != other
    requires bar != foo && bar != near && bar != other
    requires Distance(baz, foo) > DefaultMaxDistance && Distance(baz, other) > DefaultMaxDistance
    ensures PartialShapeHook([Field(foo, true), Field(bar, false), Field(baz, false)], [foo, bar, near, other], objectLabel)
      == if Distance(baz, near) <= DefaultMaxDistance then Some(SuggestionMessage(objectLabel, baz, near)) else None
  {
    PartialKeysOfThree(foo, bar, baz);
    RequiredKeysNearMissAmongOthers(foo, bar, baz, near, other, objectLabel);
  }

  /** `R.keys` of a two-field shape. */
  lemma ShapeKeysOfTwo(f: Field, g: Field)
    ensures ShapeKeys([f, g]) == [f.key, g.key]
  {
  }

  /** `R.keys` of a three-field shape. */
  lemma ShapeKeysOfThree(f: Field, g: Field, h: Field)
    ensures ShapeKeys([f, g, h]) == [f.key, g.key, h.key]
  {
  }

  /** Keys foo, bar and baz required, keys foo, bar and a near miss of baz
      given: the validator suggests baz. */
  lemma RequiredKeysNearMiss(foo: string, bar: string, baz: string, near: string, objectLabel: string)
    requires baz != foo && baz != bar && baz != near
    requires near != foo && near != bar
    requires Distance(baz, near) <= DefaultMaxDistance
    ensures HookResult([foo, bar, baz], [foo, bar, near], objectLabel) == Some(SuggestionMessage(objectLabel, baz, near))
  {
    var valid := [foo, bar, baz];
    var test := [foo, bar, near];
    forall m, e | Mismatch(valid, test, m, e) ensures m == baz && e == near {
      assert m in valid && m != foo && m != bar;
      assert e in test && e != foo && e != bar;
    }
    assert Mismatch(valid, test, baz, near);
    HookResultSinglePair(valid, test, objectLabel, baz, near);
  }

  /** `exactShape({foo, bar, baz})` seen with keys foo, bar and a near miss
      of baz: the hook suggests baz. */
  lemma ExactShapeNearMiss(foo: string, bar: string, baz: string, near: string, objectLabel: string)
    requires baz != foo && baz != bar && baz != near
    requires near != foo && near != bar
    requires Distance(baz, near) <= DefaultMaxDistance
    ensures ExactShapeHook([Field(foo, false), Field(bar, false), Field(baz, false)], [foo, bar, near], objectLabel)
      == Some(SuggestionMessage(objectLabel, baz, near))
  {
    ShapeKeysOfThree(Field(foo, false), Field(bar, false), Field(baz, false));
    RequiredKeysNearMiss(foo, bar, baz, near, objectLabel);
  }

  /** Keys `first` and `second` required, only a near miss of `second`
      given: the validator suggests `second`. */
  lemma RequiredPairNearMiss(first: string, second: string, near: string, objectLabel: string)
    requires near != first && near != second
    requires Distance(second, near) <= DefaultMaxDistance && Distance(first, near) > DefaultMaxDistance
    ensures HookResult([first, second], [near], objectLabel) == Some(SuggestionMessage(objectLabel, second, near))
  {
    var valid := [first, second];
    var test := [near];
    forall m, e | Mismatch(valid, test, m, e) && (m, e) != (second, near)
      ensures Distance(m, e) > DefaultMaxDistance
    {
      assert m == first && e == near;
    }
    assert Mismatch(valid, test, second, near);
    HookResultSinglePair(valid, test, objectLabel, second, near);
  }

  /** A shape of two optional keys seen with only a near miss of the second:
      `exactShape` counts the optional key missing and suggests it, while
      `partialShape` requires nothing and passes. */
  lemma OptionalKeyNearMiss(first: string, second: string, near: string, objectLabel: string)
    requires near != first && near != second
    requires Distance(second, near) <= DefaultMaxDistance && Distance(first, near) > DefaultMaxDistance
    ensures ExactShapeHook([Field(first, true), Field(second, true)], [near], objectLabel)
      == Some(SuggestionMessage(objectLabel, second, near))
    ensures PartialShapeHook([Field(first, true), Field(second, true)], [near], objectLabel).None?
  {
    ShapeKeysOfTwo(Field(first, true), Field(second, true));
    RequiredPairNearMiss(first, second, near, objectLabel);
    PartialShapeHookPassesWhenRequiredPresent([Field(first, true), Field(second, true)], [near], objectLabel);
  }

  /** The distances the documented scenarios rely on. */
  lemma BazBazz()
    ensures Distance("baz", "bazz") == 1
  {
    DistanceAppendOne("baz", 'z');
    assert "baz" + ['z'] == "bazz";
  }

  lemma FooFarFromBaz()
    ensures Distance("baz", "foo") > DefaultMaxDistance
  {
    DistanceDisjointAlphabets("baz", "foo");
  }

  lemma ExtraKeyFarFromBaz()
    ensures Distance("baz", "extraKey") > DefaultMaxDistance
  {
    DistanceBounds("baz", "extraKey");
  }

  lemma LongKeyFarFromBaz()
    ensures Distance("baz", "bazzzzzzzz") > DefaultMaxDistance
  {
    DistanceBounds("baz", "bazzzzzzzz");
  }

  lemma OssDeveloper()
    ensures Distance("ossDeveloper", "osDeveloper") <= DefaultMaxDistance
    ensures Distance("color", "osDeveloper") > DefaultMaxDistance
  {
    assert "ossDeveloper" == "o" + ([ 's'] + "sDeveloper") && "osDeveloper" == "o" + "sDeveloper";
    DistanceDropHead('s', "sDeveloper");
    DistanceCommonPrefix("o", ['s'] + "sDeveloper", "sDeveloper");
    DistanceBounds("color", "osDeveloper");
  }

  // ---- the scenarios on the tests' own keys ----

  /** `partialShape({foo: optional, bar, baz})` seen with `bazz` and
      `extraKey`: the hook suggests baz for bazz. */
  lemma PartialShapeBazz(objectLabel: string)
    ensures PartialShapeHook([Field("foo", true), Field("bar", false), Field("baz", false)], ["foo", "bar", "bazz", "extraKey"], objectLabel)
      == Some(SuggestionMessage(objectLabel, "baz", "bazz"))
  {
    BazBazz();
    FooFarFromBaz();
    ExtraKeyFarFromBaz();
    PartialKeysOfThree("foo", "bar", "baz");
    RequiredKeysNearMissAmongOthers("foo", "bar", "baz", "bazz", "extraKey", objectLabel);
  }

  /** The same shape seen with `bazzzzzzzz` and `extraKey`: no key is close
      enough, so the hook passes and the library's own check reports baz. */
  lemma PartialShapeBazzzzzzzz(objectLabel: string)
    ensures PartialShapeHook([Field("foo", true), Field("bar", false), Field("baz", false)], ["foo", "bar", "bazzzzzzzz", "extraKey"], objectLabel).None?
  {
    FooFarFromBaz();
    ExtraKeyFarFromBaz();
    LongKeyFarFromBaz();
    PartialKeysOfThree("foo", "bar", "baz");
    RequiredKeysNearMissAmongOthers("foo", "bar", "baz", "bazzzzzzzz", "extraKey", objectLabel);
  }

  /** `exactShape({foo, bar, baz})` seen with `bazz`: the hook suggests baz. */
  lemma ExactShapeBazz(objectLabel: string)
    ensures ExactShapeHook([Field("foo", false), Field("bar", false), Field("baz", false)], ["foo", "bar", "bazz"], objectLabel)
      == Some(SuggestionMessage(objectLabel, "baz", "bazz"))
  {
    BazBazz();
    ExactShapeNearMiss("foo", "bar", "baz", "bazz", objectLabel);
  }

  /** `exactShape({color?, ossDeveloper?})` seen with `osDeveloper`: the hook
      suggests ossDeveloper, while `partialShape` would pass. */
  lemma OssDeveloperSuggested(objectLabel: string)
    ensures ExactShapeHook([Field("color", true), Field("ossDeveloper", true)], ["osDeveloper"], objectLabel)
      == Some(SuggestionMessage(objectLabel, "ossDeveloper", "osDeveloper"))
    ensures PartialShapeHook([Field("color", true), Field("ossDeveloper", true)], ["osDeveloper"], objectLabel).None?
  {
    OssDeveloper();
    OptionalKeyNearMiss("color", "ossDeveloper", "osDeveloper", objectLabel);
  }
}
