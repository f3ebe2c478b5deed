/** The settings merge of the installer: the permissions in the project's
    `.claude/settings.local.json` are extended with the two entries the
    installed `forge` script needs, leaving everything else in the document
    as it was. Reading and writing the file, and JSON text itself, are not
    modelled; the merge starts from the outcome of parsing the file.
 */
module Settings {
  import opened Wrappers
  import Text

  /** A parsed JSON value. Numbers are kept as reals: only their truthiness matters here. */
  datatype Json =
    | Null
    | Bool(b: bool)
    | Num(n: real)
    | Str(s: string)
    | Arr(items: seq<Json>)
    | Obj(fields: map<string, Json>)

  type Fields = map<string, Json>

  /** Property read `o[k]`; an absent key reads as `undefined`, here None. */
  function Get(o: Fields, k: string): Option<Json> {
    if k in o then Some(o[k]) else None
  }

  /** JavaScript truthiness of a property read (`undefined`, `null`, `false`, `0` and `""` are falsy). */
  predicate Truthy(v: Option<Json>) {
    match v
    case None => false
    case Some(Null) => false
    case Some(Bool(b)) => b
    case Some(Num(n)) => n != 0.0
    case Some(Str(s)) => s != ""
    case Some(_) => true
  }

  /** The two permission patterns the installer guarantees, in the order it adds them. */
  const ForgePermissions: seq<string> := ["Bash(./forge *)", "Bash(forge *)"]

  /** `{allow: [], deny: []}` */
  const EmptyPermissions: Json := Obj(map["allow" := Arr([]), "deny" := Arr([])])

  /** The document used when the file is missing or does not parse. */
  const DefaultSettings: Fields := map["permissions" := EmptyPermissions]

  /** The settings written back, and whether any permission was appended. */
  datatype Merged = Merged(settings: Fields, added: bool)

  /** The merge aborts with a JavaScript TypeError before anything is written. */
  datatype MergeError = TypeError

  /** The strings `ps` as JSON string values, in order. */
  function Strs(ps: seq<string>): seq<Json>
  {
    seq(|ps|, i requires 0 <= i < |ps| => Str(ps[i]))
  }

  predicate Distinct<T(==)>(s: seq<T>) {
    forall i, j :: 0 <= i < j < |s| ==> s[i] != s[j]
  }

  /** The permissions of `perms` that `allow` lacks, in the order of `perms`. */
  function Missing(allow: seq<Json>, perms: seq<string>): (r: seq<string>)
  {
    if perms == [] then []
    else (if Str(perms[0]) in allow then [] else [perms[0]]) + Missing(allow, perms[1..])
  }

  /** The `forEach` over the required permissions: each one is pushed when
      `allow.includes` does not find it in the list as it stands. */
  function AppendMissing(allow: seq<Json>, perms: seq<string>): (r: seq<Json>)
    decreases |perms|
    ensures |allow| <= |r| && r[..|allow|] == allow
  {
    if perms == [] then allow
    else
      var next := if Str(perms[0]) in allow then allow else allow + [Str(perms[0])];
      AppendMissing(next, perms[1..])
  }

  /** What the merge does to the value read from `settings.permissions`:
      assign a new value to it, or leave the document as it was. */
  datatype PermissionsUpdate = Assign(permissions: Json, added: bool) | Leave(added: bool)

  /** Structure fill-in and appends on the value of `settings.permissions`. */
  function MergePermissions(perms: Option<Json>): (r: Result<PermissionsUpdate, MergeError>)
    ensures r.Ok? && r.value.Leave? ==> Truthy(perms)
    ensures r.Ok? && r.value.Assign? ==> r.value.permissions.Obj?
    ensures !Truthy(perms) ==> r.Ok? && r.value.Assign? && r.value.added
    ensures perms.Some? && perms.value.Arr? ==> r == Ok(Leave(true))
    ensures r.Err? ==> Truthy(perms) && !perms.value.Arr?
  {
    if !Truthy(perms) then
      // `settings.permissions = { allow: [], deny: [] }`, then the appends
      var allow := AppendMissing([], ForgePermissions);
      Ok(Assign(Obj(EmptyPermissions.fields["allow" := Arr(allow)]), |allow| > 0))
    else
      match perms.value
      case Obj(pm) => MergeAllow(pm)
      case Arr(_) =>
        // `allow` becomes an extra property of the array, which `JSON.stringify` drops
        Ok(Leave(|AppendMissing([], ForgePermissions)| > 0))
      case _ =>
        // a truthy boolean, number or string: assigning `.allow` throws in strict mode
        Err(TypeError)
  }

  /** Fill-in and appends on `settings.permissions.allow`, when `permissions` is an object `pm`. */
  function MergeAllow(pm: Fields): (r: Result<PermissionsUpdate, MergeError>)
    ensures r.Ok? && r.value.Assign? ==> r.value.permissions.Obj? && r.value.permissions.fields.Keys == pm.Keys + {"allow"}
    ensures r.Ok? && r.value.Assign? ==> forall k :: k in pm && k != "allow" ==> r.value.permissions.fields[k] == pm[k]
  {
    var allowValue := Get(pm, "allow");
    if !Truthy(allowValue) then
      // `settings.permissions.allow = []`; `deny` and the other keys untouched
      var allow := AppendMissing([], ForgePermissions);
      Ok(Assign(Obj(pm["allow" := Arr(allow)]), |allow| > 0))
    else
      match allowValue.value
      case Arr(xs) =>
        var allow := AppendMissing(xs, ForgePermissions);
        Ok(Assign(Obj(pm["allow" := Arr(allow)]), |allow| > |xs|))
      case Str(s) =>
        // `String.prototype.includes` is a substring test; a string has no `push`
        if forall p | p in ForgePermissions :: Text.Contains(s, p) then Ok(Leave(false))
        else Err(TypeError)
      case _ =>
        // a truthy boolean, number or object has no `includes` method
        Err(TypeError)
  }

  /** The merge proper, from the settings object the file parsed to (or the default). */
  function MergeInto(settings: Fields): (r: Result<Merged, MergeError>)
    ensures r.Ok? ==> r.value.settings.Keys == settings.Keys + {"permissions"}
    ensures r.Ok? ==> forall k :: k in settings && k != "permissions" ==> r.value.settings[k] == settings[k]
  {
    match MergePermissions(Get(settings, "permissions"))
    case Err(e) => Err(e)
    case Ok(Assign(perms, added)) => Ok(Merged(settings["permissions" := perms], added))
    case Ok(Leave(added)) => Ok(Merged(settings, added))
  }

  /** What `setupClaudeSettings` writes back, and whether it reports added permissions. */
  datatype Written = Written(document: Json, added: bool)

  /** `setupClaudeSettings`: `parsed` is None when the file is missing or does
      not parse, in which case the default document is used. A parsed array
      accepts the new properties but `JSON.stringify` drops them; `null` and
      the primitives throw on the first property access or assignment. */
  function MergeSettings(parsed: Option<Json>): (r: Result<Written, MergeError>)
    ensures parsed.None? ==> r.Ok? && r.value.document.Obj? && r.value.document.fields.Keys == {"permissions"} && r.value.added
    ensures parsed.Some? && parsed.value.Obj? ==>
      (r.Ok? <==> MergeInto(parsed.value.fields).Ok?) &&
      (r.Ok? ==> r.value == Written(Obj(MergeInto(parsed.value.fields).value.settings), MergeInto(parsed.value.fields).value.added))
    ensures r.Ok? && r.value.document.Obj? ==> parsed.None? || parsed.value.Obj?
    ensures parsed.Some? && !parsed.value.Obj? && !parsed.value.Arr? ==> r.Err?
  {
    match parsed
    case None =>
      // the default document always merges
      var m := MergeInto(DefaultSettings).value;
      Ok(Written(Obj(m.settings), m.added))
    case Some(Obj(fields)) =>
      var m :- MergeInto(fields);
      Ok(Written(Obj(m.settings), m.added))
    case Some(Arr(items)) =>
      Ok(Written(Arr(items), |AppendMissing([], ForgePermissions)| > 0))
    case Some(_) =>
      Err(TypeError)
  }

  // ---------------------------------------------------------------------------
  // The documents the merge handles without throwing

  /** `permissions` is missing or falsy, or an object whose `allow` is missing, falsy or an array. */
  predicate Conforming(settings: Fields) {
    var perms := Get(settings, "permissions");
    !Truthy(perms) ||
    (perms.value.Obj? &&
     var allowValue := Get(perms.value.fields, "allow");
     !Truthy(allowValue) || allowValue.value.Arr?)
  }

  /** The allow list a conforming document starts the appends from. */
  function AllowOf(settings: Fields): seq<Json>
    requires Conforming(settings)
  {
    var perms := Get(settings, "permissions");
    if !Truthy(perms) then []
    else
      var allowValue := Get(perms.value.fields, "allow");
      if !Truthy(allowValue) then [] else allowValue.value.items
  }

  /** The permissions object after the structure is filled in, before the appends. */
  function PermissionsOf(settings: Fields): Fields
    requires Conforming(settings)
  {
    var perms := Get(settings, "permissions");
    if !Truthy(perms) then EmptyPermissions.fields else perms.value.fields
  }

  // ---------------------------------------------------------------------------
  // Lemmas about the appends

  lemma DistinctTail<T>(s: seq<T>)
    requires |s| > 0 && Distinct(s)
    ensures Distinct(s[1..]) && s[0] !in s[1..]
  {
    var rest := s[1..];
    forall i, j | 0 <= i < j < |rest| ensures rest[i] != rest[j] {
      assert rest[i] == s[i + 1] && rest[j] == s[j + 1];
    }
    forall j | 0 <= j < |rest| ensures rest[j] != s[0] {
      assert rest[j] == s[j + 1];
    }
  }

  lemma {:induction false} MissingAfterPush(allow: seq<Json>, q: string, perms: seq<string>)
    requires q !in perms
    decreases |perms|
    ensures Missing(allow + [Str(q)], perms) == Missing(allow, perms)
  {
    if perms != [] {
      assert Str(perms[0]) in allow + [Str(q)] <==> Str(perms[0]) in allow;
      MissingAfterPush(allow, q, perms[1..]);
    }
  }

  /** `Missing` keeps exactly the required permissions absent from `allow`. */
  lemma {:induction false} MissingMembers(allow: seq<Json>, perms: seq<string>)
    decreases |perms|
    ensures forall p :: p in Missing(allow, perms) <==> p in perms && Str(p) !in allow
  {
    if perms != [] {
      MissingMembers(allow, perms[1..]);
      assert perms == [perms[0]] + perms[1..];
    }
  }

  /** Nothing is missing from a list that already holds every required permission. */
  lemma {:induction false} MissingNone(allow: seq<Json>, perms: seq<string>)
    requires forall p :: p in perms ==> Str(p) in allow
    decreases |perms|
    ensures Missing(allow, perms) == []
  {
    if perms != [] {
      assert perms[0] in perms;
      MissingNone(allow, perms[1..]);
    }
  }

  lemma StrsAppend(a: seq<string>, b: seq<string>)
    ensures Strs(a + b) == Strs(a) + Strs(b)
  {
    assert forall i | 0 <= i < |a + b| :: Strs(a + b)[i] == (Strs(a) + Strs(b))[i];
  }

  /** The missing permissions, when the first one is missing and pushed. */
  lemma MissingStep(allow: seq<Json>, perms: seq<string>)
    requires |perms| > 0 && perms[0] !in perms[1..] && Str(perms[0]) !in allow
    ensures Strs(Missing(allow, perms)) == [Str(perms[0])] + Strs(Missing(allow + [Str(perms[0])], perms[1..]))
  {
    var p, rest := perms[0], perms[1..];
    MissingAfterPush(allow, p, rest);
    assert Missing(allow, perms) == [p] + Missing(allow, rest);
    StrsAppend([p], Missing(allow, rest));
    assert Strs([p]) == [Str(p)];
  }

  lemma SeqAssoc<T>(a: seq<T>, b: seq<T>, c: seq<T>)
    ensures (a + b) + c == a + (b + c)
  {
  }

  /** One step of the appends, when the first required permission is missing. */
  lemma PushStep(allow: seq<Json>, perms: seq<string>)
    requires |perms| > 0 && perms[0] !in perms[1..] && Str(perms[0]) !in allow
    requires AppendMissing(allow + [Str(perms[0])], perms[1..]) ==
             (allow + [Str(perms[0])]) + Strs(Missing(allow + [Str(perms[0])], perms[1..]))
    ensures AppendMissing(allow, perms) == allow + Strs(Missing(allow, perms))
  {
    var pushed := allow + [Str(perms[0])];
    var tail := Strs(Missing(pushed, perms[1..]));
    MissingStep(allow, perms);
    SeqAssoc(allow, [Str(perms[0])], tail);
  }

  /** With distinct required permissions, the appends add exactly the missing
      ones, in their given order, after the untouched existing list. */
  lemma {:induction false} AppendMissingIsMissing(allow: seq<Json>, perms: seq<string>)
    requires Distinct(perms)
    decreases |perms|
    ensures AppendMissing(allow, perms) == allow + Strs(Missing(allow, perms))
  {
    if perms != [] {
      var p := perms[0];
      var rest := perms[1..];
      DistinctTail(perms);
      if Str(p) in allow {
        AppendMissingIsMissing(allow, rest);
        assert Missing(allow, perms) == Missing(allow, rest);
      } else {
        AppendMissingIsMissing(allow + [Str(p)], rest);
        PushStep(allow, perms);
      }
    }
  }

  lemma ForgePermissionsDistinct()
    ensures Distinct(ForgePermissions)
  {
    assert ForgePermissions[0] != ForgePermissions[1] by {
      assert ForgePermissions[0][5] != ForgePermissions[1][5];
    }
  }

  /** After the appends every required permission is in the list. */
  lemma AppendMissingContainsAll(allow: seq<Json>, perms: seq<string>)
    requires Distinct(perms)
    ensures forall p :: p in perms ==> Str(p) in AppendMissing(allow, perms)
  {
    AppendMissingIsMissing(allow, perms);
    var m := Missing(allow, perms);
    var r := allow + Strs(m);
    MissingMembers(allow, perms);
    forall p | p in perms ensures Str(p) in r {
      if Str(p) !in allow {
        var i :| 0 <= i < |m| && m[i] == p;
        assert r[|allow| + i] == Str(p);
      }
    }
  }

  /** A second round of appends changes nothing. */
  lemma AppendMissingIdempotent(allow: seq<Json>, perms: seq<string>)
    requires Distinct(perms)
    ensures AppendMissing(AppendMissing(allow, perms), perms) == AppendMissing(allow, perms)
  {
    var once := AppendMissing(allow, perms);
    AppendMissingContainsAll(allow, perms);
    AppendMissingIsMissing(once, perms);
    MissingNone(once, perms);
  }

  lemma {:induction false} MissingCount(allow: seq<Json>, perms: seq<string>, v: Json)
    requires Distinct(perms)
    decreases |perms|
    ensures multiset(Strs(Missing(allow, perms)))[v] == (if v.Str? && v.s in perms && v !in allow then 1 else 0)
  {
    if perms != [] {
      var p := perms[0];
      var rest := perms[1..];
      DistinctTail(perms);
      MissingCount(allow, rest, v);
      var tail := Missing(allow, rest);
      var head: seq<string> := if Str(p) in allow then [] else [p];
      assert Missing(allow, perms) == head + tail;
      StrsAppend(head, tail);
      assert multiset(Strs(head + tail)) == multiset(Strs(head)) + multiset(Strs(tail));
      assert multiset(Strs(head))[v] == (if v == Str(p) && Str(p) !in allow then 1 else 0);
      assert v.Str? && v.s in perms <==> v == Str(p) || (v.Str? && v.s in rest) by {
        assert perms == [p] + rest;
      }
    }
  }

  /** Occurrence counts after the appends: a required permission occurs as
      often as before when it was present (duplicates left alone) and exactly
      once when it was missing; every other value keeps its count. */
  lemma AppendMissingCounts(allow: seq<Json>, perms: seq<string>, v: Json)
    requires Distinct(perms)
    ensures multiset(AppendMissing(allow, perms))[v] ==
            if v.Str? && v.s in perms && v !in allow then 1 else multiset(allow)[v]
  {
    AppendMissingIsMissing(allow, perms);
    MissingCount(allow, perms, v);
    assert multiset(allow + Strs(Missing(allow, perms))) == multiset(allow) + multiset(Strs(Missing(allow, perms)));
  }

  // ---------------------------------------------------------------------------
  // Lemmas about the whole merge

  /** The appends on a conforming document's allow list, in reference form. */
  lemma AppendsOnAllow(xs: seq<Json>)
    ensures var allow := AppendMissing(xs, ForgePermissions);
      && allow == xs + Strs(Missing(xs, ForgePermissions))
      && (|allow| > |xs| <==> Missing(xs, ForgePermissions) != [])
  {
    ForgePermissionsDistinct();
    AppendMissingIsMissing(xs, ForgePermissions);
  }

  /** On a conforming document the merge succeeds; the new `allow` is the old
      one followed by the missing required permissions in order, `added` says
      whether any were missing, and the rest of `permissions` (`deny` among
      it) is the old one, or `deny: []` when `permissions` had to be created. */
  lemma MergeConforming(settings: Fields)
    requires Conforming(settings)
    ensures var r := MergeInto(settings);
      && r.Ok?
      && var allow := AllowOf(settings);
      && var missing := Missing(allow, ForgePermissions);
      && r.value.settings == settings["permissions" := Obj(PermissionsOf(settings)["allow" := Arr(allow + Strs(missing))])]
      && (r.value.added <==> missing != [])
  {
    var allow := AllowOf(settings);
    AppendsOnAllow(allow);
    PermissionsConforming(settings);
  }

  /** On a conforming document `permissions` is assigned the filled-in object
      with the appended list. */
  lemma PermissionsConforming(settings: Fields)
    requires Conforming(settings)
    ensures var allow := AllowOf(settings);
      var merged := AppendMissing(allow, ForgePermissions);
      MergePermissions(Get(settings, "permissions"))
        == Ok(Assign(Obj(PermissionsOf(settings)["allow" := Arr(merged)]), |merged| > |allow|))
  {
    var perms := Get(settings, "permissions");
    if Truthy(perms) {
      var pm := perms.value.fields;
      assert MergePermissions(perms) == MergeAllow(pm);
      if Truthy(Get(pm, "allow")) {
        assert AllowOf(settings) == pm["allow"].items;
      }
    }
  }

  /** The old `allow` list is an unchanged prefix of the new one, both
      required permissions are present afterwards, and every value of the
      old list keeps its number of occurrences. */
  lemma MergeKeepsAllowPrefix(settings: Fields)
    requires Conforming(settings)
    ensures var r := MergeInto(settings);
      && r.Ok? && r.value.settings["permissions"].Obj?
      && "allow" in r.value.settings["permissions"].fields
      && var allow' := r.value.settings["permissions"].fields["allow"];
      && allow'.Arr?
      && AllowOf(settings) <= allow'.items
      && (forall p :: p in ForgePermissions ==> Str(p) in allow'.items)
      && (forall v :: v in AllowOf(settings) ==> multiset(allow'.items)[v] == multiset(AllowOf(settings))[v])
  {
    MergeConforming(settings);
    ForgePermissionsDistinct();
    var allow := AllowOf(settings);
    AppendMissingIsMissing(allow, ForgePermissions);
    AppendMissingContainsAll(allow, ForgePermissions);
    forall v | v in allow
      ensures multiset(AppendMissing(allow, ForgePermissions))[v] == multiset(allow)[v]
    {
      AppendMissingCounts(allow, ForgePermissions, v);
    }
  }

  /** The merged document is conforming, with the merged list as its allow list. */
  lemma MergedShape(settings: Fields)
    requires Conforming(settings)
    ensures var s1 := MergeInto(settings).value.settings;
      && Conforming(s1)
      && AllowOf(s1) == AllowOf(settings) + Strs(Missing(AllowOf(settings), ForgePermissions))
      && PermissionsOf(s1) == s1["permissions"].fields
      && PermissionsOf(s1)["allow"] == Arr(AllowOf(s1))
  {
    MergeConforming(settings);
  }

  /** A conforming document whose allow list already holds both required
      permissions is left exactly as it is. */
  lemma MergeFixedPoint(s1: Fields)
    requires Conforming(s1)
    requires "permissions" in s1 && s1["permissions"] == Obj(PermissionsOf(s1))
    requires "allow" in PermissionsOf(s1) && PermissionsOf(s1)["allow"] == Arr(AllowOf(s1))
    requires forall p :: p in ForgePermissions ==> Str(p) in AllowOf(s1)
    ensures MergeInto(s1) == Ok(Merged(s1, false))
  {
    var allow1 := AllowOf(s1);
    var pm1 := PermissionsOf(s1);
    MissingNone(allow1, ForgePermissions);
    MergeConforming(s1);
    assert allow1 + Strs([]) == allow1;
    assert pm1["allow" := Arr(allow1)] == pm1;
    assert s1["permissions" := Obj(pm1)] == s1;
  }

  /** The result of a merge is itself conforming, and merging it again yields
      the identical document with `added` false. */
  lemma MergeIdempotent(settings: Fields)
    requires Conforming(settings)
    ensures var r := MergeInto(settings);
      && r.Ok?
      && Conforming(r.value.settings)
      && MergeInto(r.value.settings) == Ok(Merged(r.value.settings, false))
  {
    MergeConforming(settings);
    MergedShape(settings);
    var allow := AllowOf(settings);
    ForgePermissionsDistinct();
    AppendMissingIsMissing(allow, ForgePermissions);
    AppendMissingContainsAll(allow, ForgePermissions);
    MergeFixedPoint(MergeInto(settings).value.settings);
  }

  /** A missing or unparseable file is replaced by the default document with both permissions. */
  lemma MergeFromNothing()
    ensures MergeSettings(None) ==
      Ok(Written(Obj(map["permissions" := Obj(map["allow" := Arr([Str("Bash(./forge *)"), Str("Bash(forge *)")]), "deny" := Arr([])])]), true))
  {
    MergeConforming(DefaultSettings);
    assert AllowOf(DefaultSettings) == [];
    assert PermissionsOf(DefaultSettings) == map["allow" := Arr([]), "deny" := Arr([])];
    assert Missing([], ForgePermissions[1..]) == ForgePermissions[1..];
    assert Missing([], ForgePermissions) == ForgePermissions;
    var both := [Str("Bash(./forge *)"), Str("Bash(forge *)")];
    assert Strs(ForgePermissions) == both;
    var pm := map["allow" := Arr(both), "deny" := Arr([])];
    assert map["allow" := Arr([]), "deny" := Arr([])]["allow" := Arr(both)] == pm;
    assert DefaultSettings["permissions" := Obj(pm)] == map["permissions" := Obj(pm)];
  }
  // ---------------------------------------------------------------------------
  // The documents outside the expected shape

  /** A document that is an array, or whose `permissions` is an array, gets
      its new `allow` list as a property of the array, which `JSON.stringify`
      drops: the file is written back unchanged, yet every run reports that
      permissions were added. */
  lemma ArraysAreWrittenUnchanged(settings: Fields, items: seq<Json>)
    ensures MergeSettings(Some(Arr(items))) == Ok(Written(Arr(items), true))
    ensures "permissions" in settings && settings["permissions"].Arr? ==>
      MergeInto(settings) == Ok(Merged(settings, true))
  {
    assert |AppendMissing([], ForgePermissions)| > 0 by {
      assert Str(ForgePermissions[0]) !in [];
      assert AppendMissing([], ForgePermissions) == AppendMissing([Str(ForgePermissions[0])], ForgePermissions[1..]);
    }
  }

  /** An `allow` string is searched for substrings and cannot be pushed to:
      the merge succeeds, changing nothing, exactly when both patterns occur
      in it. */
  lemma StringAllowIsSearched(settings: Fields, s: string)
    requires "permissions" in settings && settings["permissions"].Obj?
    requires Get(settings["permissions"].fields, "allow") == Some(Str(s)) && s != ""
    ensures MergeInto(settings).Ok? <==> forall p | p in ForgePermissions :: Text.Contains(s, p)
    ensures MergeInto(settings).Ok? ==> MergeInto(settings).value == Merged(settings, false)
  {
  }

  /** Whatever shape of document the merge accepts, merging its output again
      returns the same document; an addition is reported again exactly when
      `permissions` is an array. */
  lemma MergeStable(settings: Fields)
    requires MergeInto(settings).Ok?
    ensures var once := MergeInto(settings).value.settings;
      && MergeInto(once).Ok?
      && MergeInto(once).value.settings == once
      && (MergeInto(once).value.added <==> "permissions" in settings && settings["permissions"].Arr?)
  {
    var perms := Get(settings, "permissions");
    if Conforming(settings) {
      MergeIdempotent(settings);
    } else if perms.value.Arr? {
      ArraysAreWrittenUnchanged(settings, []);
    } else {
      StringAllowIsSearched(settings, settings["permissions"].fields["allow"].s);
    }
  }

  /** A truthy `permissions` that is neither an object nor an array, or a
      truthy `allow` that is neither an array nor a string, makes the merge
      throw. */
  lemma PrimitivesThrow(settings: Fields)
    requires Truthy(Get(settings, "permissions"))
    requires var perms := settings["permissions"];
      (!perms.Obj? && !perms.Arr?) ||
      (perms.Obj? && Truthy(Get(perms.fields, "allow")) && !perms.fields["allow"].Arr? && !perms.fields["allow"].Str?)
    ensures MergeInto(settings).Err?
  {
  }
}
