/** Each SVC-003 signal on its own: which declaration calls for it. */
module AuthSignals {
  import opened AuthContract
  import opened AuthTerms
  import opened Ordering

  /** The entries of a contract that has a list of them. */
  function Entries(contract: Value): seq<Value> {
    if contract.Map? && "accepted_modes" in contract.fields && contract.fields["accepted_modes"].List?
    then contract.fields["accepted_modes"].items else []
  }

  predicate Declares(entry: Value, name: string) {
    entry.Map? && "mode" in entry.fields && entry.fields["mode"] == Text(name)
  }

  function NameOf(m: Mode): (name: string)
    ensures name in NEEDED && name in PERMITTED && name in SIGNS
  {
    match m
    case UserOidc => "mode.user_oidc"
    case ServiceRs256 => "mode.service_rs256"
    case ApiKey => "mode.api_key"
    case BearerLegacy => "mode.bearer_legacy"
  }

  /** An entry of a mode with every field it needs. */
  predicate Furnished(entry: Value, m: Mode) {
    Declares(entry, NameOf(m)) && NEEDED[NameOf(m)] <= entry.fields.Keys
  }

  ghost predicate SomeDeclares(entries: seq<Value>, name: string) {
    exists i :: 0 <= i < |entries| && Declares(entries[i], name)
  }

  ghost predicate ShownInCode(world: World, name: string)
    requires name in SIGNS
  {
    exists path, sign ::
      path in world.codePaths && path in world.contents && sign in SIGNS[name] && Shows(world.contents[path], sign)
  }

  ghost predicate EntryCalls(world: World, entry: Value, s: Signal) {
    match s
    case MalformedEntry(_) => !entry.Map?
    case MalformedMode(_) => entry.Map? && !("mode" in entry.fields && entry.fields["mode"].Text?)
    case UnknownMode(_) =>
      entry.Map? && "mode" in entry.fields && entry.fields["mode"].Text? && entry.fields["mode"].text !in NEEDED
    case UnknownField(m, _) => Declares(entry, NameOf(m)) && !(entry.fields.Keys <= PERMITTED[NameOf(m)])
    case MissingMetadata(m, _) => Declares(entry, NameOf(m)) && !(NEEDED[NameOf(m)] <= entry.fields.Keys)
    case AudienceInvalid(m, _) =>
      && m in {UserOidc, ServiceRs256} && Furnished(entry, m)
      && entry.fields["audience"].Text? && !AppId(entry.fields["audience"].text)
    case JwksUrlInvalid(m, _) =>
      && m in {UserOidc, ServiceRs256} && Furnished(entry, m)
      && entry.fields["jwks_url"].Text? && !WebUrl(entry.fields["jwks_url"].text, world.isSpace)
    case WaiverNotFound(_) =>
      && Furnished(entry, BearerLegacy) && entry.fields["waiver_ref"].Text? && entry.fields["waiver_ref"] != Text("")
      && world.knownWaivers.Some? && entry.fields["waiver_ref"].text !in world.knownWaivers.value
    case CloseDateMalformed(_) =>
      && Furnished(entry, BearerLegacy) && entry.fields["deprecation_close_date"] != Null
      && (entry.fields["deprecation_close_date"].Text? ==>
            world.parseDate(entry.fields["deprecation_close_date"].text).None?)
    case CloseDatePassed(_) =>
      && Furnished(entry, BearerLegacy) && entry.fields["deprecation_close_date"].Text?
      && var date := world.parseDate(entry.fields["deprecation_close_date"].text);
         date.Some? && date.value <= world.auditDate
    case _ => false
  }

  /** The contract calls for the signal. */
  ghost predicate Calls(world: World, contract: Value, s: Signal) {
    var entries := Entries(contract);
    match s
    case MissingAuthContract => contract == Null
    case AuthContractWrongType => contract != Null && !contract.Map?
    case EmptyAcceptedModes =>
      && contract.Map?
      && ("accepted_modes" in contract.fields ==>
            contract.fields["accepted_modes"] == Null || contract.fields["accepted_modes"] == List([]))
    case AcceptedModesWrongType =>
      && contract.Map? && "accepted_modes" in contract.fields
      && contract.fields["accepted_modes"] != Null && !contract.fields["accepted_modes"].List?
    case DuplicateMode(name) =>
      exists i, j :: 0 <= i < j < |entries| && Declares(entries[i], name) && Declares(entries[j], name)
    case ImplMissing(m) =>
      entries != [] && world.codePaths != [] && SomeDeclares(entries, NameOf(m)) && !ShownInCode(world, NameOf(m))
    case ImplUndeclared(m) =>
      entries != [] && world.codePaths != [] && !SomeDeclares(entries, NameOf(m)) && ShownInCode(world, NameOf(m))
    case _ => s.index < |entries| && EntryCalls(world, entries[s.index], s)
  }

  lemma ModeOfExactly(name: string, m: Mode)
    ensures ModeOf(name) == Some(m) <==> name == NameOf(m)
    ensures NameOf(m) == ModeName(m)
    ensures ModeOf(name).Some? <==> name in NEEDED
  {
  }

  lemma DeclaresExactly(entry: Value, m: Mode)
    ensures StringMode(entry) == Some(NameOf(m)) <==> Declares(entry, NameOf(m))
    ensures ApprovedMode(entry) == Some(m) <==> Declares(entry, NameOf(m))
  {
    if StringMode(entry).Some? {
      ModeOfExactly(StringMode(entry).value, m);
    }
  }

  /** The signal is about one entry. */
  predicate HasEntry(s: Signal) {
    && EntryKind(s) && !s.MissingAuthContract? && !s.AuthContractWrongType?
    && !s.EmptyAcceptedModes? && !s.AcceptedModesWrongType?
  }

  lemma ModeCallsExactly(world: World, entry: Value, i: nat, s: Signal)
    requires s.MalformedEntry? || s.MalformedMode? || s.UnknownMode?
    ensures EntryEarns(world, entry, i, s) <==> s.index == i && EntryCalls(world, entry, s)
  {
    if StringMode(entry).Some? {
      ModeOfExactly(StringMode(entry).value, UserOidc);
    }
  }

  lemma FieldCallsExactly(world: World, entry: Value, i: nat, s: Signal)
    requires s.UnknownField? || s.MissingMetadata? || s.AudienceInvalid? || s.JwksUrlInvalid?
    ensures EntryEarns(world, entry, i, s) <==> s.index == i && EntryCalls(world, entry, s)
  {
    DeclaresExactly(entry, s.mode);
    ModeOfExactly("", s.mode);
  }

  lemma LegacyCallsExactly(world: World, entry: Value, i: nat, s: Signal)
    requires s.WaiverNotFound? || s.CloseDateMalformed? || s.CloseDatePassed?
    ensures EntryEarns(world, entry, i, s) <==> s.index == i && EntryCalls(world, entry, s)
  {
    DeclaresExactly(entry, BearerLegacy);
    ModeOfExactly("", BearerLegacy);
  }

  lemma EntryCallsExactly(world: World, entry: Value, i: nat, s: Signal)
    requires HasEntry(s)
    ensures EntryEarns(world, entry, i, s) <==> s.index == i && EntryCalls(world, entry, s)
  {
    if s.MalformedEntry? || s.MalformedMode? || s.UnknownMode? {
      ModeCallsExactly(world, entry, i, s);
    } else if s.WaiverNotFound? || s.CloseDateMalformed? || s.CloseDatePassed? {
      LegacyCallsExactly(world, entry, i, s);
    } else {
      FieldCallsExactly(world, entry, i, s);
    }
  }

  lemma DeclaredExactly(entries: seq<Value>, m: Mode)
    ensures DeclaredIn(entries, ModeName(m)) <==> SomeDeclares(entries, NameOf(m))
  {
    ModeOfExactly("", m);
    forall i | 0 <= i < |entries|
      ensures StringMode(entries[i]) == Some(ModeName(m)) <==> Declares(entries[i], NameOf(m))
    {
      DeclaresExactly(entries[i], m);
    }
  }

  lemma ShownExactly(world: World, m: Mode)
    ensures Implemented(world, m) <==> ShownInCode(world, NameOf(m))
  {
    ModeOfExactly("", m);
  }

  lemma ListCallsExactly(world: World, contract: Value, s: Signal)
    requires Entries(contract) != []
    ensures ListEarns(world, Entries(contract), s) <==> Calls(world, contract, s)
  {
    var entries := Entries(contract);
    match s
    case DuplicateMode(name) =>
    case ImplMissing(m) =>
      DeclaredExactly(entries, m);
      ShownExactly(world, m);
    case ImplUndeclared(m) =>
      DeclaredExactly(entries, m);
      ShownExactly(world, m);
    case MissingAuthContract =>
    case AuthContractWrongType =>
    case EmptyAcceptedModes =>
    case AcceptedModesWrongType =>
    case _ =>
      IndexedCallsExactly(world, entries, s);
  }

  lemma IndexedCallsExactly(world: World, entries: seq<Value>, s: Signal)
    requires HasEntry(s)
    ensures ListEarns(world, entries, s) <==> s.index < |entries| && EntryCalls(world, entries[s.index], s)
  {
    forall i | 0 <= i < |entries|
      ensures EntryEarns(world, entries[i], i, s) <==> s.index == i && EntryCalls(world, entries[i], s)
    {
      EntryCallsExactly(world, entries[i], i, s);
    }
  }

  /** A contract earns exactly the signals it calls for. */
  lemma CallsExactly(world: World, contract: Value, s: Signal)
    ensures Earns(world, contract, s) <==> Calls(world, contract, s)
  {
    if Entries(contract) != [] {
      ListCallsExactly(world, contract, s);
    }
  }

  // ---- services

  function At(value: Value, path: seq<string>): Value {
    if path == [] then value
    else if value.Map? && path[0] in value.fields then At(value.fields[path[0]], path[1..])
    else Null
  }

  /** Not planned, in whatever case, and with a runtime contract. */
  predicate LookedAt(config: Value) {
    var status := At(config, ["local", "status"]);
    !(status.Text? && FoldsToPlanned(status.text)) && At(config, ["local", "runtime_contract"]).Map?
  }

  lemma AtStep(value: Value, name: string, path: seq<string>)
    ensures At(value, [name] + path) == At(Field(value, name), path)
  {
    assert ([name] + path)[1..] == path;
  }

  lemma AtField(value: Value, a: string, b: string, c: string)
    ensures At(value, [a, b]) == Field(Field(value, a), b)
    ensures At(value, [a, b, c]) == Field(Field(Field(value, a), b), c)
  {
    AtStep(value, a, [b]);
    AtStep(Field(value, a), b, []);
    assert [a] + [b] == [a, b] && [b] + [] == [b];
    AtStep(value, a, [b, c]);
    AtStep(Field(value, a), b, [c]);
    AtStep(Field(Field(value, a), b), c, []);
    assert [a] + [b, c] == [a, b, c] && [b] + [c] == [b, c] && [c] + [] == [c];
  }

  /** Over a manifest: a service gets a signal exactly when it is looked at and its
      auth contract calls for it. */
  lemma ServiceCallsExactly(world: World, config: Value, s: Signal)
    ensures Examined(config) && Earns(world, ContractOf(config), s) <==>
              LookedAt(config) && Calls(world, At(config, ["local", "runtime_contract", "auth_contract"]), s)
  {
    AtField(config, "local", "status", "");
    AtField(config, "local", "runtime_contract", "auth_contract");
    CallsExactly(world, ContractOf(config), s);
  }
}
