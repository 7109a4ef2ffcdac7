/**
 * `selectByLocale`: picks the text of a multi-locale JSON object (`{"en": "...", "ja": "..."}`)
 * for the user's ranked locale preferences. For each preferred locale the language code is tried
 * before the full language tag; then the fixed fallback "en"; then the object's first value when
 * that value is a string.
 */
module Locales {
  import opened Wrappers

  /** A JSON value as `getStringOrNull` and `as? String` see it: a string, JSON null, or any other
    * value, carried with its text form. */
  datatype JsonValue = JString(text: string) | JNull | JOther(text: string)

  /** A JSON object: its (key, value) members in iteration order. */
  type JsonObject = seq<(string, JsonValue)>

  /** A preferred locale: `locale.language` and `locale.toLanguageTag()`. */
  datatype Locale = Locale(language: string, tag: string)

  /** `LOCALE_FALLBACK`. */
  const Fallback: string := "en"

  /** The value of the first member named `key`. */
  function Lookup(obj: JsonObject, key: string): Option<JsonValue> {
    if obj == [] then None
    else if obj[0].0 == key then Some(obj[0].1)
    else Lookup(obj[1..], key)
  }

  /** `Lookup` answers with the first member named `key`, and is absent only when there is none. */
  lemma {:induction false} LookupFindsMember(obj: JsonObject, key: string)
    ensures Lookup(obj, key).None? <==> forall i :: 0 <= i < |obj| ==> obj[i].0 != key
    ensures Lookup(obj, key).Some? ==>
      exists i :: 0 <= i < |obj| && obj[i] == (key, Lookup(obj, key).value) && forall j :: 0 <= j < i ==> obj[j].0 != key
  {
    if obj != [] && obj[0].0 != key {
      LookupFindsMember(obj[1..], key);
      if Lookup(obj, key).Some? {
        var i :| 0 <= i < |obj[1..]| && obj[1..][i] == (key, Lookup(obj, key).value) && forall j :: 0 <= j < i ==> obj[1..][j].0 != key;
        assert obj[i + 1] == (key, Lookup(obj, key).value);
        assert forall j :: 0 <= j < i + 1 ==> obj[j].0 != key by {
          forall j | 0 < j < i + 1 ensures obj[j].0 != key {
            assert obj[j] == obj[1..][j - 1];
          }
        }
      } else {
        forall i | 0 < i < |obj| ensures obj[i].0 != key {
          assert obj[i] == obj[1..][i - 1];
        }
      }
    }
  }

  /** `getStringOrNull(key)`: the member's text, absent when the member is missing, JSON null, or
    * has empty text. */
  function GetStringOrNull(obj: JsonObject, key: string): (r: Option<string>)
    ensures r.Some? ==> r.value != "" && Lookup(obj, key).Some?
    ensures Lookup(obj, key).Some? && Lookup(obj, key).value != JNull && Lookup(obj, key).value.text != "" ==>
      r == Some(Lookup(obj, key).value.text)
  {
    match Lookup(obj, key)
    case None => None
    case Some(JNull) => None
    case Some(v) => if v.text == "" then None else Some(v.text)
  }

  /** A text found under `key` is the text of a non-null member named `key`. */
  lemma GetStringOrNullFromMember(obj: JsonObject, key: string)
    ensures GetStringOrNull(obj, key).Some? ==>
      exists i :: 0 <= i < |obj| && obj[i].0 == key && obj[i].1 != JNull && obj[i].1.text == GetStringOrNull(obj, key).value
  {
    LookupFindsMember(obj, key);
  }

  /** The first member named `key` decides: its text when it is non-null and non-empty, else nothing. */
  lemma GetStringOrNullOfFirstMember(obj: JsonObject, key: string, i: nat)
    requires i < |obj| && obj[i].0 == key
    requires forall j :: 0 <= j < i ==> obj[j].0 != key
    ensures GetStringOrNull(obj, key) == if obj[i].1 == JNull || obj[i].1.text == "" then None else Some(obj[i].1.text)
  {
    LookupFindsMember(obj, key);
    var k :| 0 <= k < |obj| && obj[k] == (key, Lookup(obj, key).value) && forall j :: 0 <= j < k ==> obj[j].0 != key;
    assert !(k < i) && !(i < k);
  }

  /** `values().nextOrNull() as? String`: the first value, only when it is a string. */
  function FirstValue(obj: JsonObject): (r: Option<string>)
    ensures r.Some? <==> |obj| > 0 && obj[0].1.JString?
    ensures r.Some? ==> r.value == obj[0].1.text
  {
    if |obj| > 0 && obj[0].1.JString? then Some(obj[0].1.text) else None
  }

  /** The keys probed for the preferences, in order: language, then tag, for each locale by rank. */
  function RankedKeys(prefs: seq<Locale>): (keys: seq<string>)
    ensures |keys| == 2 * |prefs|
  {
    if prefs == [] then [] else [prefs[0].language, prefs[0].tag] + RankedKeys(prefs[1..])
  }

  /** Positions 2i and 2i+1 hold the language and the tag of preference i. */
  lemma {:induction false} RankedKeysAt(prefs: seq<Locale>, i: nat)
    requires i < |prefs|
    ensures RankedKeys(prefs)[2 * i] == prefs[i].language && RankedKeys(prefs)[2 * i + 1] == prefs[i].tag
  {
    if i > 0 {
      RankedKeysAt(prefs[1..], i - 1);
    }
  }

  /** No key before position `n` of `keys` has a text in `obj`. */
  predicate MissesBefore(obj: JsonObject, keys: seq<string>, n: nat)
    requires n <= |keys|
  {
    forall j :: 0 <= j < n ==> GetStringOrNull(obj, keys[j]).None?
  }

  /** The text of the first key of `keys` that has one. */
  function FirstPresent(obj: JsonObject, keys: seq<string>): Option<string> {
    if keys == [] then None
    else if GetStringOrNull(obj, keys[0]).Some? then GetStringOrNull(obj, keys[0])
    else FirstPresent(obj, keys[1..])
  }

  /** `FirstPresent` answers with the first key that has a text, and is absent only when none has. */
  lemma {:induction false} FirstPresentIsFirstHit(obj: JsonObject, keys: seq<string>)
    ensures FirstPresent(obj, keys).None? <==> MissesBefore(obj, keys, |keys|)
    ensures FirstPresent(obj, keys).Some? ==>
      exists i :: 0 <= i < |keys| && MissesBefore(obj, keys, i) && GetStringOrNull(obj, keys[i]) == FirstPresent(obj, keys)
  {
    if keys == [] {
    } else if GetStringOrNull(obj, keys[0]).Some? {
      assert MissesBefore(obj, keys, 0);
    } else {
      FirstPresentIsFirstHit(obj, keys[1..]);
      var r := FirstPresent(obj, keys[1..]);
      if r.Some? {
        var i :| 0 <= i < |keys[1..]| && MissesBefore(obj, keys[1..], i) && GetStringOrNull(obj, keys[1..][i]) == r;
        assert MissesBefore(obj, keys, i + 1) && GetStringOrNull(obj, keys[i + 1]) == r;
      } else {
        forall j | 0 < j < |keys| ensures GetStringOrNull(obj, keys[j]).None? {
          assert keys[j] == keys[1..][j - 1];
        }
      }
      if MissesBefore(obj, keys, |keys|) {
        assert MissesBefore(obj, keys[1..], |keys[1..]|) by {
          forall j | 0 <= j < |keys[1..]| ensures GetStringOrNull(obj, keys[1..][j]).None? {
            assert keys[1..][j] == keys[j + 1];
          }
        }
      }
    }
  }

  /** When no key has a text, nothing is found. */
  lemma {:induction false} AllMissingFindsNothing(obj: JsonObject, keys: seq<string>)
    requires MissesBefore(obj, keys, |keys|)
    ensures FirstPresent(obj, keys) == None
  {
    if keys != [] {
      assert MissesBefore(obj, keys[1..], |keys[1..]|) by {
        forall j | 0 <= j < |keys[1..]| ensures GetStringOrNull(obj, keys[1..][j]).None? {
          assert keys[1..][j] == keys[j + 1];
        }
      }
      AllMissingFindsNothing(obj, keys[1..]);
    }
  }

  /** What `selectByLocale` returns: the first ranked key with a text, then "en", then the first
    * value when it is a string. */
  function Selected(obj: JsonObject, prefs: seq<Locale>): Option<string> {
    var hit := FirstPresent(obj, RankedKeys(prefs) + [Fallback]);
    if hit.Some? then hit else FirstValue(obj)
  }

  /** The selection is absent exactly when no ranked key and not "en" has a text and the first
    * value is not a string. */
  lemma SelectedAbsentIff(obj: JsonObject, prefs: seq<Locale>)
    ensures Selected(obj, prefs).None? <==>
      MissesBefore(obj, RankedKeys(prefs) + [Fallback], 2 * |prefs| + 1) && !(|obj| > 0 && obj[0].1.JString?)
  {
    FirstPresentIsFirstHit(obj, RankedKeys(prefs) + [Fallback]);
  }

  /** `selectByLocale()`: the loop over the preferences with its early returns. */
  method SelectByLocale(obj: JsonObject, prefs: seq<Locale>) returns (r: Option<string>)
    ensures r == Selected(obj, prefs)
  {
    for n := 0 to |prefs|
      invariant NoPreferenceHit(obj, prefs[..n])
    {
      var byLanguage := GetStringOrNull(obj, prefs[n].language);
      if byLanguage.Some? {
        EarliestPreferenceWins(obj, prefs, n);
        return byLanguage;
      }
      var byTag := GetStringOrNull(obj, prefs[n].tag);
      if byTag.Some? {
        EarliestPreferenceWins(obj, prefs, n);
        return byTag;
      }
      assert prefs[..n + 1] == prefs[..n] + [prefs[n]];
    }
    assert prefs[..|prefs|] == prefs;
    FallbackBeforeFirstValue(obj, prefs);
    r := GetStringOrNull(obj, Fallback);
    if r.None? {
      r := FirstValue(obj);
    }
  }

  lemma {:induction false} RankedKeysAppend(a: seq<Locale>, b: seq<Locale>)
    ensures RankedKeys(a + b) == RankedKeys(a) + RankedKeys(b)
  {
    if a != [] {
      assert (a + b)[1..] == a[1..] + b;
      RankedKeysAppend(a[1..], b);
    } else {
      assert a + b == b;
    }
  }

  lemma RankedKeysSplit(prefs: seq<Locale>, n: nat)
    requires n < |prefs|
    ensures RankedKeys(prefs) + [Fallback] ==
      RankedKeys(prefs[..n]) + ([prefs[n].language, prefs[n].tag] + RankedKeys(prefs[n + 1..]) + [Fallback])
  {
    assert prefs == prefs[..n] + prefs[n..];
    RankedKeysAppend(prefs[..n], prefs[n..]);
    assert prefs[n..][1..] == prefs[n + 1..];
  }

  /** Probing `a` then `b` finds what `a` finds, or else what `b` finds. */
  lemma {:induction false} FirstPresentConcat(obj: JsonObject, a: seq<string>, b: seq<string>)
    ensures FirstPresent(obj, a + b) == if FirstPresent(obj, a).Some? then FirstPresent(obj, a) else FirstPresent(obj, b)
  {
    if a == [] {
      assert a + b == b;
    } else {
      assert (a + b)[0] == a[0];
      assert (a + b)[1..] == a[1..] + b;
      FirstPresentConcat(obj, a[1..], b);
    }
  }

  // ---------------------------------------------------------------------------------------------
  // Properties of the selection.

  /** No preference has a text, neither under its language code nor under its tag. */
  predicate NoPreferenceHit(obj: JsonObject, prefs: seq<Locale>) {
    forall m :: 0 <= m < |prefs| ==>
      GetStringOrNull(obj, prefs[m].language).None? && GetStringOrNull(obj, prefs[m].tag).None?
  }

  lemma NoPreferenceHitFindsNothing(obj: JsonObject, prefs: seq<Locale>)
    requires NoPreferenceHit(obj, prefs)
    ensures FirstPresent(obj, RankedKeys(prefs)) == None
  {
    var keys := RankedKeys(prefs);
    forall j | 0 <= j < |keys| ensures GetStringOrNull(obj, keys[j]).None? {
      RankedKeysAt(prefs, j / 2);
      assert j == 2 * (j / 2) || j == 2 * (j / 2) + 1;
    }
    AllMissingFindsNothing(obj, keys);
  }

  /** The earliest-ranked preference that has a text wins, its language code before its tag. */
  lemma EarliestPreferenceWins(obj: JsonObject, prefs: seq<Locale>, n: nat)
    requires n < |prefs| && NoPreferenceHit(obj, prefs[..n])
    ensures GetStringOrNull(obj, prefs[n].language).Some? ==>
      Selected(obj, prefs) == GetStringOrNull(obj, prefs[n].language)
    ensures GetStringOrNull(obj, prefs[n].language).None? && GetStringOrNull(obj, prefs[n].tag).Some? ==>
      Selected(obj, prefs) == GetStringOrNull(obj, prefs[n].tag)
  {
    RankedKeysSplit(prefs, n);
    var rest := [prefs[n].language, prefs[n].tag] + RankedKeys(prefs[n + 1..]) + [Fallback];
    FirstPresentConcat(obj, RankedKeys(prefs[..n]), rest);
    NoPreferenceHitFindsNothing(obj, prefs[..n]);
    assert rest[1..] == [prefs[n].tag] + RankedKeys(prefs[n + 1..]) + [Fallback];
  }

  /** With no preferred text, "en" is used before the first value. */
  lemma FallbackBeforeFirstValue(obj: JsonObject, prefs: seq<Locale>)
    requires NoPreferenceHit(obj, prefs)
    ensures Selected(obj, prefs) ==
      if GetStringOrNull(obj, Fallback).Some? then GetStringOrNull(obj, Fallback) else FirstValue(obj)
  {
    NoPreferenceHitFindsNothing(obj, prefs);
    FallbackAfterMisses(obj, RankedKeys(prefs));
  }

  lemma FallbackAfterMisses(obj: JsonObject, keys: seq<string>)
    requires FirstPresent(obj, keys).None?
    ensures FirstPresent(obj, keys + [Fallback]) == GetStringOrNull(obj, Fallback)
  {
    FirstPresentConcat(obj, keys, [Fallback]);
    assert [Fallback][1..] == [];
  }

  /** A selected text is the text of one of the object's members. */
  lemma SelectedComesFromObject(obj: JsonObject, prefs: seq<Locale>)
    ensures Selected(obj, prefs).Some? ==>
      exists i :: 0 <= i < |obj| && obj[i].1 != JNull && obj[i].1.text == Selected(obj, prefs).value
  {
    var keys := RankedKeys(prefs) + [Fallback];
    var hit := FirstPresent(obj, keys);
    FirstPresentIsFirstHit(obj, keys);
    if hit.Some? {
      var k :| 0 <= k < |keys| && MissesBefore(obj, keys, k) && GetStringOrNull(obj, keys[k]) == hit;
      GetStringOrNullFromMember(obj, keys[k]);
    }
  }

  /** {"en": "Foo", "ja": "Baz"}: Japanese first gives "Baz"; no preference gives "Foo". */
  lemma PreferredLocaleExample()
    ensures var obj := [("en", JString("Foo")), ("ja", JString("Baz"))];
      Selected(obj, [Locale("ja", "ja-JP"), Locale("en", "en-US")]) == Some("Baz") &&
      Selected(obj, []) == Some("Foo")
  {
    var obj := [("en", JString("Foo")), ("ja", JString("Baz"))];
    assert GetStringOrNull(obj, "ja") == Some("Baz");
    EarliestPreferenceWins(obj, [Locale("ja", "ja-JP"), Locale("en", "en-US")], 0);
    assert GetStringOrNull(obj, "en") == Some("Foo");
    FallbackBeforeFirstValue(obj, []);
  }

  /** Only the first value is a fallback: a null first member leaves the text absent, even when a
    * later member has one. */
  lemma NullFirstValueGivesNothing()
    ensures Selected([("ja", JNull), ("de", JString("Titel"))], [Locale("ja", "ja")]) == None
  {
    var obj := [("ja", JNull), ("de", JString("Titel"))];
    assert GetStringOrNull(obj, "ja") == None;
    assert GetStringOrNull(obj, "en") == None;
    assert RankedKeys([Locale("ja", "ja")]) + [Fallback] == ["ja", "ja", "en"];
    AllMissingFindsNothing(obj, ["ja", "ja", "en"]);
  }

  /** An empty object selects nothing. */
  lemma EmptyObjectGivesNothing(prefs: seq<Locale>)
    ensures Selected([], prefs) == None
  {
    AllMissingFindsNothing([], RankedKeys(prefs) + [Fallback]);
  }
}
