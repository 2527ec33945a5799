/** The settings store: a fixed-schema settings object, loaded by a shallow
    merge of the saved blob over the defaults, read and written through
    dotted paths, reset, and turned into an effective theme and a text
    direction. Values are modelled as the JSON values they are stored as,
    so that the shallow merge and `undefined` are visible. */
module Settings {
  import opened Options
  import opened Text

  /** A JSON value (arrays do not occur in settings and are left out). */
  datatype Value = Null | Bool(b: bool) | Num(n: int) | Str(s: string) | Obj(fields: map<string, Value>)

  /** A settings object: top-level key to value. */
  type Blob = map<string, Value>

  /** JavaScript truthiness. */
  predicate Truthy(v: Value) {
    match v
    case Null => false
    case Bool(b) => b
    case Num(n) => n != 0
    case Str(s) => s != ""
    case Obj(_) => true
  }

  const DefaultPrivacy: map<string, Value> :=
    map["showProfile" := Bool(true), "showProgress" := Bool(true), "allowAnalytics" := Bool(true)]

  const DefaultAccessibility: map<string, Value> :=
    map["highContrast" := Bool(false), "reducedMotion" := Bool(false), "screenReader" := Bool(false)]

  /** `defaultSettings`. */
  const Defaults: Blob :=
    map[
      "theme" := Str("dark"),
      "language" := Str("en"),
      "notifications" := Bool(true),
      "autoSave" := Bool(true),
      "fontSize" := Str("medium"),
      "codeTheme" := Str("dark"),
      "soundEffects" := Bool(true),
      "animations" := Bool(true),
      "privacy" := Obj(DefaultPrivacy),
      "accessibility" := Obj(DefaultAccessibility)
    ]

  /** Every schema key is present. */
  predicate HasSchema(s: Blob) {
    Defaults.Keys <= s.Keys
  }

  /* ---------- load, save, reset ---------- */

  /** `loadSettings`: `{...defaults, ...saved}`. A key the blob holds wins,
      whole (a saved group object replaces the default group, it is not
      merged into it); every other key takes its default. */
  function Load(saved: Option<Blob>): (r: Blob)
    ensures HasSchema(r)
    ensures saved.None? ==> r == Defaults
    ensures saved.Some? ==> r.Keys == Defaults.Keys + saved.value.Keys
    ensures saved.Some? ==> forall k :: k in saved.value ==> r[k] == saved.value[k]
    ensures forall k :: k in Defaults && (saved.None? || k !in saved.value) ==> r[k] == Defaults[k]
  {
    match saved
    case None => Defaults
    case Some(blob) => Defaults + blob
  }

  /** The settings in memory and the `codemaster_settings` blob in storage. */
  datatype Store = Store(settings: Blob, saved: Option<Blob>)

  /** The constructor: load from whatever is saved. */
  function Open(saved: Option<Blob>): (st: Store)
    ensures st.saved == saved && HasSchema(st.settings)
  {
    Store(Load(saved), saved)
  }

  /** `saveSettings`: serialize every key of the settings. */
  function Save(st: Store): (r: Store)
    ensures r.settings == st.settings && r.saved == Some(st.settings)
  {
    st.(saved := Some(st.settings))
  }

  /** Saving then loading gives back the same settings, for any settings
      that carry the schema, which every loaded settings object does. */
  lemma SaveLoadRoundTrip(st: Store)
    requires HasSchema(st.settings)
    ensures Load(Save(st).saved) == st.settings
  {
  }

  /** What is open stays what is reloaded after a save. */
  lemma OpenSaveReopen(saved: Option<Blob>)
    ensures Open(Save(Open(saved)).saved).settings == Open(saved).settings
  {
    SaveLoadRoundTrip(Open(saved));
  }

  /** `resetSettings`: only when confirmed, back to the defaults, and saved. */
  function Reset(st: Store, confirmed: bool): (r: Store)
    ensures confirmed ==> r.settings == Defaults && r.saved == Some(Defaults)
    ensures !confirmed ==> r == st
  {
    if confirmed then Save(st.(settings := Defaults)) else st
  }

  /** After a confirmed reset every top-level field, now and after a
      reload, equals its default. */
  lemma ResetRestoresDefaults(st: Store)
    ensures forall k :: k in Defaults ==> Reset(st, true).settings[k] == Defaults[k]
    ensures Load(Reset(st, true).saved) == Defaults
  {
  }

  /* ---------- dotted paths ---------- */

  /** One step of `path.split('.').reduce((obj, key) => obj && obj[key], settings)`:
      `None` is `undefined`; a falsy value short-circuits and is passed on;
      an object is indexed; any other truthy value has no such property. */
  function GetStep(acc: Option<Value>, key: string): Option<Value> {
    match acc
    case None => None
    case Some(v) =>
      if !Truthy(v) then acc
      else if v.Obj? && key in v.fields then Some(v.fields[key])
      else None
  }

  /** The reduce over the keys: `undefined` and falsy values pass through
      untouched, and a defined result from a truthy start means the first key
      was found in an object. */
  function GetIn(acc: Option<Value>, keys: seq<string>): (r: Option<Value>)
    ensures acc.None? || !Truthy(acc.value) ==> r == acc
    ensures r.Some? && |keys| > 0 && acc.Some? && Truthy(acc.value) ==>
              acc.value.Obj? && keys[0] in acc.value.fields
    decreases |keys|
  {
    if |keys| == 0 then acc else GetIn(GetStep(acc, keys[0]), keys[1..])
  }

  /** `getNestedSetting`: a path without '.' reads the top-level key, and a
      path whose first key is missing reads `undefined`. */
  function GetNested(s: Blob, path: string): (r: Option<Value>)
    ensures '.' !in path ==> r == (if path in s then Some(s[path]) else None)
    ensures Split(path, '.')[0] !in s ==> r.None?
  {
    var keys := Split(path, '.');
    assert '.' !in path ==> GetIn(Some(Obj(s)), keys) == GetStep(Some(Obj(s)), path) by {
      if '.' !in path {
        SplitWithoutSeparator(path, '.');
        assert keys[1..] == [];
      }
    }
    GetIn(Some(Obj(s)), keys)
  }

  /** `setNestedSetting`: walk every key but the last, then assign the last.
      Class bodies are strict code, so walking into or assigning on anything
      but an existing object throws a TypeError, which is `None` here. */
  function SetIn(v: Value, keys: seq<string>, x: Value): (r: Option<Value>)
    requires |keys| > 0
    ensures r.Some? ==> v.Obj? && r.value.Obj? && r.value.fields.Keys == v.fields.Keys + {keys[0]}
    decreases |keys|
  {
    if !v.Obj? then None
    else if |keys| == 1 then Some(Obj(v.fields[keys[0] := x]))
    else if keys[0] !in v.fields then None
    else match SetIn(v.fields[keys[0]], keys[1..], x)
      case None => None
      case Some(c) => Some(Obj(v.fields[keys[0] := c]))
  }

  function SetNested(s: Blob, path: string, x: Value): (r: Option<Blob>)
    ensures r.Some? ==> r.value.Keys == s.Keys + {Split(path, '.')[0]}
  {
    match SetIn(Obj(s), Split(path, '.'), x)
    case None => None
    case Some(w) => Some(w.fields)
  }

  /** The value a path prefix reads is an object. */
  predicate ReadsObject(o: Option<Value>) {
    o.Some? && o.value.Obj?
  }

  /** Every proper prefix of the path, the empty one included, reads an
      object: the walk of `setNestedSetting` never leaves the objects. */
  predicate WalkStaysInObjects(v: Value, keys: seq<string>) {
    forall i :: 0 <= i < |keys| ==> ReadsObject(GetIn(Some(v), keys[..i]))
  }

  /** Reading one key further from an object that holds it. */
  lemma GetInStep(v: Value, keys: seq<string>, i: nat)
    requires v.Obj? && 0 < i <= |keys| && keys[0] in v.fields
    ensures GetIn(Some(v), keys[..i]) == GetIn(Some(v.fields[keys[0]]), keys[1..][..i - 1])
  {
    assert keys[..i][1..] == keys[1..][..i - 1];
  }

  /** A write succeeds exactly when the walk to the last key stays inside
      objects. */
  lemma {:induction false} SetSucceedsIff(v: Value, keys: seq<string>, x: Value)
    requires |keys| > 0
    ensures SetIn(v, keys, x).Some? <==> WalkStaysInObjects(v, keys)
    decreases |keys|
  {
    assert keys[..0] == [];
    if |keys| > 1 && v.Obj? {
      if keys[0] in v.fields {
        var child := v.fields[keys[0]];
        SetSucceedsIff(child, keys[1..], x);
        forall i | 0 < i < |keys|
          ensures GetIn(Some(v), keys[..i]) == GetIn(Some(child), keys[1..][..i - 1])
        {
          GetInStep(v, keys, i);
        }
        if WalkStaysInObjects(child, keys[1..]) {
          forall i | 0 <= i < |keys|
            ensures ReadsObject(GetIn(Some(v), keys[..i]))
          {
            if i > 0 {
              assert ReadsObject(GetIn(Some(child), keys[1..][..i - 1]));
            }
          }
        }
        if WalkStaysInObjects(v, keys) {
          forall j | 0 <= j < |keys[1..]|
            ensures ReadsObject(GetIn(Some(child), keys[1..][..j]))
          {
            assert ReadsObject(GetIn(Some(v), keys[..j + 1]));
          }
        }
      } else {
        assert keys[..1] == [keys[0]];
        assert GetIn(Some(v), keys[..1]) == GetIn(None, []);
        assert !ReadsObject(GetIn(Some(v), keys[..1]));
      }
    }
  }

  /** Writing a group toggle `group.leaf` succeeds exactly when the group is
      an object of the settings. */
  lemma GroupToggleWritable(s: Blob, group: string, leaf: string, x: Value)
    requires '.' !in group && '.' !in leaf
    ensures SetNested(s, group + "." + leaf, x).Some? <==> group in s && s[group].Obj?
  {
    PathKeys(group, leaf);
    var keys := [group, leaf];
    assert keys[1..] == [leaf];
    if group in s {
      assert SetIn(Obj(s), keys, x) == match SetIn(s[group], [leaf], x)
        case None => None
        case Some(c) => Some(Obj(s[group := c]));
      assert SetIn(s[group], [leaf], x).Some? <==> s[group].Obj?;
    }
  }

  /** Reading through `undefined` stays `undefined`. */
  lemma {:induction false} GetInUndefined(keys: seq<string>)
    ensures GetIn(None, keys) == None
    decreases |keys|
  {
    if |keys| > 0 {
      GetInUndefined(keys[1..]);
    }
  }

  /** A path whose first key is missing from an object reads `undefined`. */
  lemma MissingKeyIsUndefined(m: map<string, Value>, keys: seq<string>)
    requires |keys| > 0 && keys[0] !in m
    ensures GetIn(Some(Obj(m)), keys) == None
  {
    GetInUndefined(keys[1..]);
  }

  /** After a successful set the same path reads the new value. */
  lemma {:induction false} GetAfterSet(v: Value, keys: seq<string>, x: Value)
    requires |keys| > 0
    requires SetIn(v, keys, x).Some?
    ensures GetIn(SetIn(v, keys, x), keys) == Some(x)
    decreases |keys|
  {
    if |keys| > 1 {
      GetAfterSet(v.fields[keys[0]], keys[1..], x);
    }
  }

  /** Two key paths part ways: at some depth they hold different keys. */
  predicate Diverge(p: seq<string>, q: seq<string>)
    decreases |p|
  {
    |p| > 0 && |q| > 0 && (p[0] != q[0] || Diverge(p[1..], q[1..]))
  }

  /** A set leaves every path that parts ways with it reading as before. */
  lemma {:induction false} SetLeavesOthers(v: Value, p: seq<string>, x: Value, q: seq<string>)
    requires |p| > 0
    requires SetIn(v, p, x).Some?
    requires Diverge(p, q)
    ensures GetIn(SetIn(v, p, x), q) == GetIn(Some(v), q)
    decreases |p|
  {
    var w := SetIn(v, p, x).value;
    if p[0] != q[0] {
      assert GetStep(Some(w), q[0]) == GetStep(Some(v), q[0]);
    } else {
      SetLeavesOthers(v.fields[p[0]], p[1..], x, q[1..]);
    }
  }

  /** The dotted path `group.leaf` is the key pair `[group, leaf]`. */
  lemma PathKeys(group: string, leaf: string)
    requires '.' !in group && '.' !in leaf
    ensures Split(group + "." + leaf, '.') == [group, leaf]
  {
    assert group + "." + leaf == group + ['.'] + leaf;
    SplitPiece(group, leaf, '.');
    SplitWithoutSeparator(leaf, '.');
  }

  /** A group toggle written through its dotted path reads back, and every
      other leaf, in its own group or the other, reads as before. */
  lemma ToggleRoundTrip(s: Blob, group: string, leaf: string, x: Value, group': string, leaf': string)
    requires '.' !in group && '.' !in leaf && '.' !in group' && '.' !in leaf'
    requires group in s && s[group].Obj?
    requires group != group' || leaf != leaf'
    ensures var r := SetNested(s, group + "." + leaf, x);
            && r.Some?
            && GetNested(r.value, group + "." + leaf) == Some(x)
            && GetNested(r.value, group' + "." + leaf') == GetNested(s, group' + "." + leaf')
  {
    GroupToggleWritable(s, group, leaf, x);
    PathKeys(group, leaf);
    PathKeys(group', leaf');
    var p := [group, leaf];
    var q := [group', leaf'];
    GetAfterSet(Obj(s), p, x);
    assert Diverge(p, q) by {
      if group == group' {
        assert Diverge(p[1..], q[1..]);
      }
    }
    SetLeavesOthers(Obj(s), p, x, q);
  }

  /** Reading a two-key path is two steps. */
  lemma GetTwoKeys(v: Value, group: string, leaf: string)
    ensures GetIn(Some(v), [group, leaf]) == GetStep(GetStep(Some(v), group), leaf)
  {
    var keys := [group, leaf];
    assert keys[1..] == [leaf] && keys[1..][1..] == [];
    assert GetIn(Some(v), keys) == GetIn(GetStep(Some(v), group), [leaf]);
    assert GetIn(GetStep(Some(v), group), [leaf]) == GetIn(GetStep(GetStep(Some(v), group), leaf), []);
  }

  /** A toggle inside a group object reads through its dotted path; in
      particular every toggle of the defaults reads its default. */
  lemma GroupToggleReads(s: Blob, group: string, leaf: string)
    requires '.' !in group && '.' !in leaf
    requires group in s && s[group].Obj? && leaf in s[group].fields
    ensures GetNested(s, group + "." + leaf) == Some(s[group].fields[leaf])
  {
    PathKeys(group, leaf);
    GetTwoKeys(Obj(s), group, leaf);
  }

  /** The merge is shallow: a saved group object without a toggle hides
      that toggle's default, and the dotted path reads `undefined`. */
  lemma ShallowMergeHidesGroupDefaults(blob: Blob, group: string, leaf: string)
    requires '.' !in group && '.' !in leaf
    requires group in blob && blob[group] == Obj(map[])
    ensures GetNested(Load(Some(blob)), group + "." + leaf) == None
  {
    PathKeys(group, leaf);
    GetTwoKeys(Obj(Load(Some(blob))), group, leaf);
    assert GetStep(Some(Obj(Load(Some(blob)))), group) == Some(Obj(map[]));
  }

  /** A path whose group is missing cannot be written. */
  lemma SetIntoMissingGroupFails(s: Blob, group: string, leaf: string, x: Value)
    requires '.' !in group && '.' !in leaf
    requires group !in s
    ensures SetNested(s, group + "." + leaf, x).None?
  {
    PathKeys(group, leaf);
  }

  /* ---------- derived presentation ---------- */

  /** The theme `applyTheme` puts on the page: the setting itself, except
      that "auto" follows the system colour-scheme preference. */
  function EffectiveTheme(s: Blob, prefersDark: bool): (r: Option<Value>)
    ensures r != Some(Str("auto"))
    ensures "theme" in s && s["theme"] == Str("auto") ==>
              r == Some(Str(if prefersDark then "dark" else "light"))
    ensures "theme" in s && s["theme"] != Str("auto") ==> r == Some(s["theme"])
    ensures "theme" !in s ==> r.None?
  {
    if "theme" !in s then None
    else if s["theme"] == Str("auto") then Some(Str(if prefersDark then "dark" else "light"))
    else Some(s["theme"])
  }

  /** The `dir` attribute `applyLanguage` sets. */
  function TextDirection(s: Blob): (dir: string)
    ensures dir == "rtl" || dir == "ltr"
    ensures dir == "rtl" <==> "language" in s && s["language"] == Str("ar")
  {
    if "language" in s && s["language"] == Str("ar") then "rtl" else "ltr"
  }

  /** With nothing saved the page is dark and left-to-right. */
  lemma DefaultPresentation(prefersDark: bool)
    ensures EffectiveTheme(Load(None), prefersDark) == Some(Str("dark"))
    ensures TextDirection(Load(None)) == "ltr"
  {
  }

  /* ---------- account deletion ---------- */

  const DeleteConfirmation := "DELETE"

  /** The local-storage keys `deleteAccount` removes. */
  const AccountKeys: set<string> :=
    {"codemaster_users", "codemaster_current_user", "codemaster_settings", "codemaster_session_expires"}

  /** `deleteAccount`: only the exact answer "DELETE" to the prompt (which is
      `None` when cancelled) removes the four keys and empties session
      storage; every other key, `login_attempts` included, stays. */
  function DeleteAccount<V>(answer: Option<string>, local: map<string, V>, session: map<string, V>)
    : (r: (map<string, V>, map<string, V>))
    ensures answer == Some(DeleteConfirmation) ==>
              && r.0.Keys == local.Keys - AccountKeys
              && (forall k :: k in r.0 ==> r.0[k] == local[k])
              && r.1 == map[]
    ensures answer != Some(DeleteConfirmation) ==> r == (local, session)
  {
    if answer == Some(DeleteConfirmation) then (local - AccountKeys, map[]) else (local, session)
  }
}
