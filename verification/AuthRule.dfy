/** What rule SVC-003 and its schema ask of a declaration, in their own terms, and how
    the evaluator compares: exactly what it leaves unchecked, and exactly what it
    asks beyond the rule. */
module AuthRule {
  import opened AuthContract
  import opened AuthTerms
  import opened Ordering

  // ---- dates

  /** YYYY-MM-DD */
  predicate DateForm(s: string) {
    && |s| == 10 && s[4] == '-' && s[7] == '-'
    && forall i :: 0 <= i < 10 && i != 4 && i != 7 ==> IsDigit(s[i])
  }

  function DigitAt(s: string, i: nat): nat
    requires i < |s| && IsDigit(s[i])
  {
    s[i] as int - '0' as int
  }

  predicate IsLeap(year: nat) {
    year % 4 == 0 && (year % 100 != 0 || year % 400 == 0)
  }

  function DaysIn(year: nat, month: nat): nat {
    if month == 2 then if IsLeap(year) then 29 else 28
    else if month == 4 || month == 6 || month == 9 || month == 11 then 30
    else 31
  }

  function DaysBefore(year: nat, month: nat): nat {
    if month <= 1 then 0 else DaysBefore(year, month - 1) + DaysIn(year, month - 1)
  }

  /** Days from the first of January of the year 1, counted from one. */
  function Ordinal(year: nat, month: nat, day: nat): int
    requires year >= 1
  {
    var y := year - 1;
    365 * y + y / 4 - y / 100 + y / 400 + DaysBefore(year, month) + day
  }

  /** The calendar date a text of the form YYYY-MM-DD names. */
  function Calendar(s: string): Option<int> {
    if !DateForm(s) then None
    else
      var year := 1000 * DigitAt(s, 0) + 100 * DigitAt(s, 1) + 10 * DigitAt(s, 2) + DigitAt(s, 3);
      var month, day := 10 * DigitAt(s, 5) + DigitAt(s, 6), 10 * DigitAt(s, 8) + DigitAt(s, 9);
      if year >= 1 && 1 <= month <= 12 && 1 <= day <= DaysIn(year, month) then Some(Ordinal(year, month, day))
      else None
  }

  // ---- the rule

  /** What the rule refers to: the date of the run, the registered waivers and whether
      their file loads, and which texts are valid http(s) URLs. */
  datatype Terms = Terms(runDate: int, waivers: set<string>, registerLoads: bool, isHttpUrl: string -> bool)

  /** The evaluator's view of them: no waivers are known to it if none are registered
      or their file does not load, and dates in the rule's form read as dates. */
  ghost predicate Sees(world: World, terms: Terms) {
    && world.knownWaivers == (if terms.waivers == {} || !terms.registerLoads then None else Some(terms.waivers))
    && forall s :: DateForm(s) ==> world.parseDate(s) == Calendar(s)
  }

  const SCHEMA_FIELDS := {"mode", "audience", "jwks_url", "issuer", "key_id_prefix",
                          "deprecation_close_date", "waiver_ref", "notes"}

  /** An audience, wherever it stands, is a bare app id and the service's key. */
  predicate AudienceByRule(service: string, value: Value) {
    value.Text? && AppId(value.text) && value.text == service
  }

  predicate UrlByRule(terms: Terms, value: Value) {
    value.Text? && terms.isHttpUrl(value.text)
  }

  predicate DateByRule(value: Value) {
    value.Text? && Calendar(value.text).Some?
  }

  /** The schema's types and forms, which do not depend on the mode. */
  predicate FieldsBySchema(terms: Terms, service: string, fields: map<string, Value>) {
    && fields.Keys <= SCHEMA_FIELDS
    && (forall f :: f in fields ==> fields[f].Text?)
    && ("audience" in fields ==> AudienceByRule(service, fields["audience"]))
    && ("jwks_url" in fields ==> UrlByRule(terms, fields["jwks_url"]))
    && ("deprecation_close_date" in fields ==> DateByRule(fields["deprecation_close_date"]))
  }

  /** A registered waiver, unless none are registered, and a close date that has not
      come on the day of the run. */
  predicate LegacyByRule(terms: Terms, fields: map<string, Value>) {
    && "waiver_ref" in fields && fields["waiver_ref"].Text?
    && "deprecation_close_date" in fields && DateByRule(fields["deprecation_close_date"])
    && (terms.waivers != {} ==> fields["waiver_ref"].text in terms.waivers)
    && Calendar(fields["deprecation_close_date"].text).value > terms.runDate
  }

  predicate ModeByRule(terms: Terms, fields: map<string, Value>, mode: Mode) {
    match mode
    case UserOidc => "audience" in fields && "jwks_url" in fields
    case ServiceRs256 => "audience" in fields && "jwks_url" in fields
    case ApiKey => "issuer" in fields
    case BearerLegacy => LegacyByRule(terms, fields)
  }

  predicate EntryByRule(terms: Terms, service: string, entry: Value) {
    && entry.Map? && ApprovedMode(entry).Some?
    && FieldsBySchema(terms, service, entry.fields)
    && ModeByRule(terms, entry.fields, ApprovedMode(entry).value)
  }

  /** The declaration of a service: nothing but a non-empty list of such entries, each
      mode once. */
  ghost predicate DeclarationByRule(terms: Terms, service: string, contract: Value) {
    && contract.Map? && contract.fields.Keys == {"accepted_modes"}
    && contract.fields["accepted_modes"].List?
    && var entries := contract.fields["accepted_modes"].items;
       && entries != []
       && (forall i :: 0 <= i < |entries| ==> EntryByRule(terms, service, entries[i]))
       && (forall i, j :: 0 <= i < j < |entries| ==> ApprovedMode(entries[i]) != ApprovedMode(entries[j]))
  }

  // ---- what the evaluator leaves unchecked, and what it asks beyond

  /** Every value is a string; an audience is the service's key and a key URL a valid
      one; a close date is written with dashes and has not come on the day of the run;
      and a waiver that is not looked up, because its reference is empty or the
      register does not load, is registered all the same. */
  predicate Careful(terms: Terms, service: string, entry: Value)
    requires entry.Map?
  {
    && (forall f :: f in entry.fields ==> entry.fields[f].Text?)
    && (var audience := Field(entry, "audience"); audience.Text? ==> audience.text == service)
    && (var url := Field(entry, "jwks_url"); url.Text? ==> terms.isHttpUrl(url.text))
    && (var date := Field(entry, "deprecation_close_date");
        date.Text? ==> Calendar(date.text).Some? && Calendar(date.text).value > terms.runDate)
    && (var ref := Field(entry, "waiver_ref");
        ref.Text? && terms.waivers != {} && (ref.text == "" || !terms.registerLoads) ==> ref.text in terms.waivers)
  }

  /** Only fields of the entry's own mode; a key URL that starts in lower case and has
      no white space; a close date that has not come on the evaluator's date either. */
  ghost predicate Narrow(world: World, entry: Value) {
    && entry.Map? && ApprovedMode(entry).Some?
    && entry.fields.Keys <= PERMITTED[ModeName(ApprovedMode(entry).value)]
    && (var url := Field(entry, "jwks_url"); url.Text? ==> WebUrl(url.text, world.isSpace))
    && (var date := Field(entry, "deprecation_close_date");
        date.Text? && Calendar(date.text).Some? ==> Calendar(date.text).value > world.auditDate)
  }

  lemma CalendarForm(s: string)
    ensures Calendar(s).Some? ==> DateForm(s)
  {
  }

  /** The fields of an entry of one mode. */
  lemma OwnFields(entry: Value, mode: Mode)
    requires entry.Map? && ApprovedMode(entry) == Some(mode) && entry.fields.Keys <= PERMITTED[ModeName(mode)]
    ensures entry.fields.Keys <= SCHEMA_FIELDS
    ensures mode.UserOidc? || mode.ServiceRs256? ==>
      && "deprecation_close_date" !in entry.fields && "waiver_ref" !in entry.fields
      && (Full(entry, mode) <==> "audience" in entry.fields && "jwks_url" in entry.fields)
    ensures mode.ApiKey? ==>
      && "audience" !in entry.fields && "jwks_url" !in entry.fields
      && "deprecation_close_date" !in entry.fields && "waiver_ref" !in entry.fields
      && (Full(entry, mode) <==> "issuer" in entry.fields)
    ensures mode.BearerLegacy? ==>
      && "audience" !in entry.fields && "jwks_url" !in entry.fields
      && (Full(entry, mode) <==> "deprecation_close_date" in entry.fields && "waiver_ref" in entry.fields)
  {
  }

  lemma CarefulByRule(world: World, terms: Terms, service: string, entry: Value)
    requires Sees(world, terms) && SoundEntry(world, entry) && Careful(terms, service, entry)
    ensures EntryByRule(terms, service, entry) && Narrow(world, entry)
  {
    var mode := ApprovedMode(entry).value;
    OwnFields(entry, mode);
    if mode.BearerLegacy? {
      var date := entry.fields["deprecation_close_date"];
      CalendarForm(date.text);
      assert world.parseDate(date.text) == Calendar(date.text);
    }
  }

  lemma NarrowIsSound(world: World, terms: Terms, service: string, entry: Value)
    requires Sees(world, terms) && EntryByRule(terms, service, entry) && Narrow(world, entry)
    ensures SoundEntry(world, entry) && Careful(terms, service, entry)
  {
    var mode := ApprovedMode(entry).value;
    OwnFields(entry, mode);
    if mode.BearerLegacy? {
      var date := entry.fields["deprecation_close_date"];
      CalendarForm(date.text);
      assert world.parseDate(date.text) == Calendar(date.text);
    }
  }

  /** An entry the evaluator finds sound meets the rule exactly when it is `Careful`,
      and one that meets the rule is found sound exactly when it is `Narrow`. */
  lemma EntryExactly(world: World, terms: Terms, service: string, entry: Value)
    requires Sees(world, terms)
    ensures SoundEntry(world, entry) && Careful(terms, service, entry) <==>
              EntryByRule(terms, service, entry) && Narrow(world, entry)
    ensures SoundEntry(world, entry) ==> (EntryByRule(terms, service, entry) <==> Careful(terms, service, entry))
    ensures EntryByRule(terms, service, entry) ==> (SoundEntry(world, entry) <==> Narrow(world, entry))
  {
    if SoundEntry(world, entry) && Careful(terms, service, entry) {
      CarefulByRule(world, terms, service, entry);
    }
    if EntryByRule(terms, service, entry) && Narrow(world, entry) {
      NarrowIsSound(world, terms, service, entry);
    }
    if EntryByRule(terms, service, entry) && SoundEntry(world, entry) {
      SoundIsNarrow(world, terms, service, entry);
    }
  }

  lemma SoundIsNarrow(world: World, terms: Terms, service: string, entry: Value)
    requires Sees(world, terms) && EntryByRule(terms, service, entry) && SoundEntry(world, entry)
    ensures Narrow(world, entry)
  {
    var mode := ApprovedMode(entry).value;
    OwnFields(entry, mode);
    if mode.BearerLegacy? {
      var date := entry.fields["deprecation_close_date"];
      CalendarForm(date.text);
      assert world.parseDate(date.text) == Calendar(date.text);
    }
  }

  // ---- a whole contract

  /** The code half of the check, which the evaluator skips when it scans no code. */
  ghost predicate CodeAgrees(world: World, contract: Value) {
    world.codePaths != [] && AcceptedModes(contract).List? ==>
      forall m :: DeclaredIn(AcceptedModes(contract).items, ModeName(m)) <==> Implemented(world, m)
  }

  ghost predicate CarefulContract(terms: Terms, service: string, contract: Value) {
    && contract.Map? && contract.fields.Keys == {"accepted_modes"} && AcceptedModes(contract).List?
    && forall i :: 0 <= i < |AcceptedModes(contract).items| ==>
         AcceptedModes(contract).items[i].Map? && Careful(terms, service, AcceptedModes(contract).items[i])
  }

  ghost predicate NarrowContract(world: World, contract: Value) {
    && AcceptedModes(contract).List?
    && (forall i :: 0 <= i < |AcceptedModes(contract).items| ==> Narrow(world, AcceptedModes(contract).items[i]))
    && CodeAgrees(world, contract)
  }

  lemma PassingExactly(world: World, terms: Terms, service: string, contract: Value)
    requires Sees(world, terms) && Conformant(world, contract)
    ensures DeclarationByRule(terms, service, contract) <==> CarefulContract(terms, service, contract)
  {
    var entries := AcceptedModes(contract).items;
    forall i | 0 <= i < |entries|
      ensures entries[i].Map?
      ensures EntryByRule(terms, service, entries[i]) <==> Careful(terms, service, entries[i])
    {
      assert SoundEntry(world, entries[i]);
      EntryExactly(world, terms, service, entries[i]);
    }
    forall i, j | 0 <= i < j < |entries|
      ensures ApprovedMode(entries[i]) != ApprovedMode(entries[j])
    {
      assert SoundEntry(world, entries[i]) && SoundEntry(world, entries[j]);
      assert StringMode(entries[i]) != StringMode(entries[j]);
    }
  }

  lemma MeetingExactly(world: World, terms: Terms, service: string, contract: Value)
    requires Sees(world, terms) && DeclarationByRule(terms, service, contract)
    ensures Conformant(world, contract) <==> NarrowContract(world, contract)
  {
    var entries := contract.fields["accepted_modes"].items;
    assert AcceptedModes(contract) == List(entries);
    forall i | 0 <= i < |entries|
      ensures SoundEntry(world, entries[i]) <==> Narrow(world, entries[i])
    {
      assert EntryByRule(terms, service, entries[i]);
      EntryExactly(world, terms, service, entries[i]);
    }
    forall i, j | 0 <= i < j < |entries|
      ensures StringMode(entries[i]) != StringMode(entries[j])
    {
      assert ApprovedMode(entries[i]) != ApprovedMode(entries[j]);
      assert EntryByRule(terms, service, entries[i]) && EntryByRule(terms, service, entries[j]);
    }
  }

  /** A contract the evaluator passes meets the rule exactly when it is careful; one
      that meets the rule is passed exactly when it is narrow and agrees with the code. */
  lemma ContractExactly(world: World, terms: Terms, service: string, contract: Value)
    requires Sees(world, terms)
    ensures Conformant(world, contract) ==>
              (DeclarationByRule(terms, service, contract) <==> CarefulContract(terms, service, contract))
    ensures DeclarationByRule(terms, service, contract) ==>
              (Conformant(world, contract) <==> NarrowContract(world, contract))
  {
    if Conformant(world, contract) {
      PassingExactly(world, terms, service, contract);
    }
    if DeclarationByRule(terms, service, contract) {
      MeetingExactly(world, terms, service, contract);
    }
  }

  // ---- a whole manifest

  function Status(config: Value): Value {
    Field(Field(config, "local"), "status")
  }

  predicate HasRuntimeContract(config: Value) {
    Field(Field(config, "local"), "runtime_contract").Map?
  }

  predicate Exempt(config: Value) {
    Status(config) == Text("planned")
  }

  /** Services whose status is `planned` are exempt; every other declares its auth
      contract under its runtime contract. */
  ghost predicate ServiceByRule(terms: Terms, service: string, config: Value) {
    Exempt(config) || (HasRuntimeContract(config) && DeclarationByRule(terms, service, ContractOf(config)))
  }

  /** The service gets no SVC-003 finding. */
  ghost predicate Silent(world: World, config: Value) {
    forall s :: !(Examined(config) && Earns(world, ContractOf(config), s))
  }

  /** The status does not just fold to `planned`, which is all the evaluator asks. */
  predicate PlainStatus(config: Value) {
    Planned(config) ==> Exempt(config)
  }

  ghost predicate CarefulService(terms: Terms, service: string, config: Value) {
    || Exempt(config)
    || (!Planned(config) && HasRuntimeContract(config) && CarefulContract(terms, service, ContractOf(config)))
  }

  ghost predicate NarrowService(world: World, config: Value) {
    Exempt(config) || (!Planned(config) && NarrowContract(world, ContractOf(config)))
  }

  lemma ExemptIsPlanned(config: Value)
    requires Exempt(config)
    ensures Planned(config)
  {
    var text := "planned";
    var folded := seq(|text|, i requires 0 <= i < |text| => Lower(text[i]));
    assert folded == text;
  }

  lemma SilentExactly(world: World, config: Value)
    ensures Silent(world, config) <==>
              Planned(config) || !HasRuntimeContract(config) || Conformant(world, ContractOf(config))
  {
    ServiceSilentExactly(world, config);
  }

  /** A service the evaluator is silent about meets the rule exactly when it is
      careful; it is silent about one that meets the rule exactly when that is
      narrow. Both rest on a plain status. */
  lemma ServiceExactly(world: World, terms: Terms, service: string, config: Value)
    requires Sees(world, terms)
    ensures Silent(world, config) && PlainStatus(config) ==>
              (ServiceByRule(terms, service, config) <==> CarefulService(terms, service, config))
    ensures ServiceByRule(terms, service, config) && PlainStatus(config) ==>
              (Silent(world, config) <==> NarrowService(world, config))
    ensures Silent(world, config) && CarefulService(terms, service, config) <==>
              ServiceByRule(terms, service, config) && NarrowService(world, config)
  {
    SilentExactly(world, config);
    ContractExactly(world, terms, service, ContractOf(config));
    if Exempt(config) {
      ExemptIsPlanned(config);
    }
  }

  /** So over every manifest. */
  lemma ManifestExactly(world: World, terms: Terms, services: map<string, Value>)
    requires Sees(world, terms)
    ensures (forall name :: name in services ==>
               Silent(world, services[name]) && CarefulService(terms, name, services[name])) <==>
            (forall name :: name in services ==>
               ServiceByRule(terms, name, services[name]) && NarrowService(world, services[name]))
  {
    forall name | name in services
      ensures Silent(world, services[name]) && CarefulService(terms, name, services[name]) <==>
                ServiceByRule(terms, name, services[name]) && NarrowService(world, services[name])
    {
      ServiceExactly(world, terms, name, services[name]);
    }
  }

  // ---- contracts that pass and do not meet the rule

  function OneEntry(fields: map<string, Value>): Value {
    Map(map["accepted_modes" := List([Map(fields)])])
  }

  lemma OneEntryConformant(world: World, fields: map<string, Value>)
    requires world.codePaths == [] && SoundEntry(world, Map(fields))
    ensures Conformant(world, OneEntry(fields))
  {
  }

  lemma OneEntryByRule(terms: Terms, service: string, fields: map<string, Value>)
    ensures DeclarationByRule(terms, service, OneEntry(fields)) <==> EntryByRule(terms, service, Map(fields))
  {
    var entries := OneEntry(fields).fields["accepted_modes"].items;
    assert entries == [Map(fields)] && entries[0] == Map(fields);
  }

  function Keyed(mode: string, audience: string, url: string): Value {
    Map(map["mode" := Text(mode), "audience" := Text(audience), "jwks_url" := Text(url)])
  }

  lemma ForeignAudiencePasses(world: World, terms: Terms, service: string, audience: string, url: string)
    requires world.codePaths == [] && AppId(audience) && WebUrl(url, world.isSpace) && audience != service
    ensures var contract := OneEntry(Keyed("mode.user_oidc", audience, url).fields);
            Conformant(world, contract) && !DeclarationByRule(terms, service, contract)
  {
    var entry := Keyed("mode.user_oidc", audience, url);
    assert ApprovedMode(entry) == Some(UserOidc);
    assert entry.fields.Keys == {"mode", "audience", "jwks_url"};
    assert SoundEntry(world, entry) && !EntryByRule(terms, service, entry);
    OneEntryConformant(world, entry.fields);
    OneEntryByRule(terms, service, entry.fields);
  }

  /** An audience that is another service's. */
  lemma WrongAudiencePasses(world: World, terms: Terms)
    requires world.codePaths == [] && !world.isSpace('x')
    ensures var contract := OneEntry(map["mode" := Text("mode.user_oidc"),
                                         "audience" := Text("other"), "jwks_url" := Text("https://x")]);
            Conformant(world, contract) && !DeclarationByRule(terms, "scp", contract)
  {
    BareAppIdExactly("other");
    assert "https://x" == "https://" + "x" && Solid("x", world.isSpace);
    assert |"other"| != |"scp"|;
    ForeignAudiencePasses(world, terms, "scp", "other", "https://x");
  }

  /** An entry for the deprecated mode. */
  function Legacy(date: string, ref: string): map<string, Value> {
    map["mode" := Text("mode.bearer_legacy"), "deprecation_close_date" := Text(date), "waiver_ref" := Text(ref)]
  }

  lemma LegacyPasses(world: World, date: string, ref: string)
    requires world.codePaths == [] && (world.knownWaivers.Some? && ref != "" ==> ref in world.knownWaivers.value)
    requires world.parseDate(date).Some? && world.parseDate(date).value > world.auditDate
    ensures Conformant(world, OneEntry(Legacy(date, ref)))
  {
    var entry := Map(Legacy(date, ref));
    assert ApprovedMode(entry) == Some(BearerLegacy);
    assert SoundEntry(world, entry);
    OneEntryConformant(world, Legacy(date, ref));
  }

  lemma LegacyFails(terms: Terms, service: string, date: string, ref: string)
    requires Calendar(date).None? || Calendar(date).value <= terms.runDate
             || (terms.waivers != {} && ref !in terms.waivers)
    ensures !DeclarationByRule(terms, service, OneEntry(Legacy(date, ref)))
  {
    assert ApprovedMode(Map(Legacy(date, ref))) == Some(BearerLegacy);
    assert !LegacyByRule(terms, Legacy(date, ref));
    OneEntryByRule(terms, service, Legacy(date, ref));
  }

  /** A close date without dashes, which `date.fromisoformat` reads all the same. */
  lemma CompactDatePasses(world: World, terms: Terms, service: string)
    requires Sees(world, terms) && world.codePaths == [] && terms.waivers == {}
    requires world.parseDate("20991231").Some? && world.parseDate("20991231").value > world.auditDate
    ensures var contract := OneEntry(Legacy("20991231", "W-1"));
            Conformant(world, contract) && !DeclarationByRule(terms, service, contract)
  {
    assert |"20991231"| != 10;
    LegacyPasses(world, "20991231", "W-1");
    LegacyFails(terms, service, "20991231", "W-1");
  }

  lemma DateOf(s: string, year: nat, month: nat, day: nat)
    requires DateForm(s) && 1 <= year && 1 <= month <= 12 && 1 <= day <= DaysIn(year, month)
    requires year == 1000 * DigitAt(s, 0) + 100 * DigitAt(s, 1) + 10 * DigitAt(s, 2) + DigitAt(s, 3)
    requires month == 10 * DigitAt(s, 5) + DigitAt(s, 6) && day == 10 * DigitAt(s, 8) + DigitAt(s, 9)
    ensures Calendar(s) == Some(Ordinal(year, month, day))
  {
  }

  lemma Ordinals()
    ensures Ordinal(2026, 4, 18) == 739724 && Ordinal(2026, 5, 1) == 739737 && Ordinal(2027, 1, 1) == 739982
  {
    assert DaysBefore(2026, 4) == 90 && DaysBefore(2026, 5) == 120 && DaysBefore(2027, 1) == 0;
  }

  lemma SomeDates()
    ensures Calendar("2026-04-18") == Some(739724)
    ensures Calendar("2026-05-01") == Some(739737)
    ensures Calendar("2027-01-01") == Some(739982)
  {
    Ordinals();
    DateOf("2026-04-18", 2026, 4, 18);
    DateOf("2026-05-01", 2026, 5, 1);
    DateOf("2027-01-01", 2027, 1, 1);
  }

  /** A close date that has come by the day of the run but lies after the date of the
      standards, which is the one the evaluator compares it with. */
  lemma BetweenPasses(world: World, terms: Terms, service: string, date: string)
    requires Sees(world, terms) && world.codePaths == [] && terms.waivers == {}
    requires Calendar(date).Some? && world.auditDate < Calendar(date).value <= terms.runDate
    ensures var contract := OneEntry(Legacy(date, "W-1"));
            Conformant(world, contract) && !DeclarationByRule(terms, service, contract)
  {
    CalendarForm(date);
    LegacyPasses(world, date, "W-1");
    LegacyFails(terms, service, date, "W-1");
  }

  /** As the first of May 2026 is for standards of April 2026 in the year after. */
  lemma LapsedDatePasses(world: World, terms: Terms, service: string)
    requires Sees(world, terms) && world.codePaths == [] && terms.waivers == {}
    requires Some(world.auditDate) == Calendar("2026-04-18") && Some(terms.runDate) == Calendar("2027-01-01")
    ensures var contract := OneEntry(Legacy("2026-05-01", "W-1"));
            Conformant(world, contract) && !DeclarationByRule(terms, service, contract)
  {
    SomeDates();
    BetweenPasses(world, terms, service, "2026-05-01");
  }

  /** A waiver that is not registered, while the register does not load. */
  lemma UnreadableRegisterPasses(world: World, terms: Terms, service: string, date: string, ref: string)
    requires Sees(world, terms) && world.codePaths == [] && !terms.registerLoads
    requires terms.waivers != {} && ref !in terms.waivers
    requires Calendar(date).Some? && Calendar(date).value > world.auditDate
    ensures var contract := OneEntry(Legacy(date, ref));
            Conformant(world, contract) && !DeclarationByRule(terms, service, contract)
  {
    CalendarForm(date);
    LegacyPasses(world, date, ref);
    LegacyFails(terms, service, date, ref);
  }

  /** Metadata left null. */
  lemma NullMetadataPasses(world: World, terms: Terms, service: string)
    requires world.codePaths == []
    ensures var contract := OneEntry(map["mode" := Text("mode.user_oidc"), "audience" := Null, "jwks_url" := Null]);
            Conformant(world, contract) && !DeclarationByRule(terms, service, contract)
  {
    var fields := map["mode" := Text("mode.user_oidc"), "audience" := Null, "jwks_url" := Null];
    var entry := Map(fields);
    assert ApprovedMode(entry) == Some(UserOidc);
    assert "audience" in fields && !fields["audience"].Text?;
    assert SoundEntry(world, entry) && !EntryByRule(terms, service, entry);
    OneEntryConformant(world, fields);
    OneEntryByRule(terms, service, fields);
  }

  /** A service with no runtime contract, or whose status only folds to `planned`. */
  lemma UnexaminedPasses(world: World, terms: Terms, service: string, config: Value)
    requires !Exempt(config) && !HasRuntimeContract(config)
    ensures Silent(world, config) && !ServiceByRule(terms, service, config)
  {
    SilentExactly(world, config);
  }

  lemma CapitalStatusPasses(world: World, terms: Terms, service: string)
    ensures var config := Map(map["local" := Map(map["status" := Text("Planned")])]);
            Planned(config) && Silent(world, config) && !ServiceByRule(terms, service, config)
  {
    var text := "Planned";
    var config := Map(map["local" := Map(map["status" := Text(text)])]);
    assert Status(config) == Text(text) && text[0] != "planned"[0];
    assert Lower(text[0]) == 'p';
    assert seq(|text|, i requires 0 <= i < |text| => Lower(text[i])) == "planned";
    SilentExactly(world, config);
  }

  // ---- contracts that meet the rule and are reported

  lemma OneEntryEarns(world: World, fields: map<string, Value>, s: Signal)
    requires EntryKind(s) && EntryEarns(world, Map(fields), 0, s)
    ensures Earns(world, OneEntry(fields), s)
  {
    assert AcceptedModes(OneEntry(fields)).items[0] == Map(fields);
  }

  function ApiKeyWithAudience(): map<string, Value> {
    map["mode" := Text("mode.api_key"), "issuer" := Text("control-tower"), "audience" := Text("scp")]
  }

  lemma ForeignFieldByRule(terms: Terms)
    ensures DeclarationByRule(terms, "scp", OneEntry(ApiKeyWithAudience()))
  {
    var fields := ApiKeyWithAudience();
    assert ApprovedMode(Map(fields)) == Some(ApiKey);
    assert fields.Keys == {"mode", "issuer", "audience"};
    OneEntryByRule(terms, "scp", fields);
  }

  /** A field the schema allows in every entry, on an entry of another mode. */
  lemma ForeignFieldReported(world: World, terms: Terms)
    ensures var contract := OneEntry(ApiKeyWithAudience());
            DeclarationByRule(terms, "scp", contract) && Earns(world, contract, UnknownField(ApiKey, 0))
  {
    var fields := ApiKeyWithAudience();
    assert ApprovedMode(Map(fields)) == Some(ApiKey);
    assert "audience" in fields && "audience" !in AllowedFields(ApiKey);
    ForeignFieldByRule(terms);
    OneEntryEarns(world, fields, UnknownField(ApiKey, 0));
  }

  function KeysAt(url: string): map<string, Value> {
    map["mode" := Text("mode.user_oidc"), "audience" := Text("scp"), "jwks_url" := Text(url)]
  }

  lemma KeysByRule(terms: Terms, url: string)
    requires terms.isHttpUrl(url)
    ensures DeclarationByRule(terms, "scp", OneEntry(KeysAt(url)))
  {
    var fields := KeysAt(url);
    assert ApprovedMode(Map(fields)) == Some(UserOidc);
    assert fields.Keys == {"mode", "audience", "jwks_url"};
    OneEntryByRule(terms, "scp", fields);
  }

  lemma KeysReported(world: World, url: string)
    requires !WebUrl(url, world.isSpace)
    ensures Earns(world, OneEntry(KeysAt(url)), JwksUrlInvalid(UserOidc, 0))
  {
    var entry := Map(KeysAt(url));
    assert ApprovedMode(entry) == Some(UserOidc) && Field(entry, "jwks_url") == Text(url);
    OneEntryEarns(world, KeysAt(url), JwksUrlInvalid(UserOidc, 0));
  }

  /** A valid URL whose scheme is written in capitals. */
  lemma CapitalSchemeReported(world: World, terms: Terms)
    requires terms.isHttpUrl("HTTPS://x")
    ensures var contract := OneEntry(KeysAt("HTTPS://x"));
            DeclarationByRule(terms, "scp", contract) && Earns(world, contract, JwksUrlInvalid(UserOidc, 0))
  {
    assert forall rest :: ("http://" + rest)[0] == 'h' && ("https://" + rest)[0] == 'h';
    assert "HTTPS://x"[0] == 'H';
    KeysByRule(terms, "HTTPS://x");
    KeysReported(world, "HTTPS://x");
  }

  lemma LegacyMeets(terms: Terms, service: string, date: string, ref: string)
    requires Calendar(date).Some? && terms.runDate < Calendar(date).value
    requires terms.waivers != {} ==> ref in terms.waivers
    ensures DeclarationByRule(terms, service, OneEntry(Legacy(date, ref)))
  {
    var fields := Legacy(date, ref);
    assert ApprovedMode(Map(fields)) == Some(BearerLegacy);
    assert fields.Keys == {"mode", "deprecation_close_date", "waiver_ref"};
    OneEntryByRule(terms, service, fields);
  }

  lemma LegacyReported(world: World, date: string, ref: string)
    requires world.parseDate(date).Some? && world.parseDate(date).value <= world.auditDate
    ensures Earns(world, OneEntry(Legacy(date, ref)), CloseDatePassed(0))
  {
    var entry := Map(Legacy(date, ref));
    assert ApprovedMode(entry) == Some(BearerLegacy) && Field(entry, "deprecation_close_date") == Text(date);
    OneEntryEarns(world, Legacy(date, ref), CloseDatePassed(0));
  }

  /** A close date after the day of the run but not after the date of the standards. */
  lemma EarlyRunReported(world: World, terms: Terms, service: string, date: string, ref: string)
    requires Sees(world, terms) && (terms.waivers != {} ==> ref in terms.waivers)
    requires Calendar(date).Some? && terms.runDate < Calendar(date).value <= world.auditDate
    ensures var contract := OneEntry(Legacy(date, ref));
            DeclarationByRule(terms, service, contract) && Earns(world, contract, CloseDatePassed(0))
  {
    CalendarForm(date);
    LegacyMeets(terms, service, date, ref);
    LegacyReported(world, date, ref);
  }

  // ---- single signals

  /** An audience is reported exactly in an entry of a verified mode that has both of
      its fields, where it is a string and no bare app id. */
  lemma AudienceReported(world: World, contract: Value, m: Mode, i: nat)
    ensures Earns(world, contract, AudienceInvalid(m, i)) <==>
              && contract.Map? && "accepted_modes" in contract.fields && contract.fields["accepted_modes"].List?
              && i < |contract.fields["accepted_modes"].items|
              && var entry := contract.fields["accepted_modes"].items[i];
                 && entry.Map? && {"mode", "audience", "jwks_url"} <= entry.fields.Keys
                 && (|| (m == UserOidc && entry.fields["mode"] == Text("mode.user_oidc"))
                     || (m == ServiceRs256 && entry.fields["mode"] == Text("mode.service_rs256")))
                 && entry.fields["audience"].Text? && !AppId(entry.fields["audience"].text)
  {
    if contract.Map? && AcceptedModes(contract).List? && i < |AcceptedModes(contract).items| {
      var entry := AcceptedModes(contract).items[i];
      if entry.Map? && "mode" in entry.fields && entry.fields["mode"].Text? {
        ModeNamesDecide(entry.fields["mode"].text);
      }
    }
  }

  lemma ModeNamesDecide(name: string)
    ensures ModeOf(name) == Some(UserOidc) <==> name == "mode.user_oidc"
    ensures ModeOf(name) == Some(ServiceRs256) <==> name == "mode.service_rs256"
  {
  }

  // ---- a service that declares every mode

  const ALL_MODES := [UserOidc, ServiceRs256, ApiKey, BearerLegacy]

  function EntryFor(mode: Mode, app: string, url: string, date: string, ref: string): Value {
    match mode
    case UserOidc => Keyed("mode.user_oidc", app, url)
    case ServiceRs256 => Keyed("mode.service_rs256", app, url)
    case ApiKey => Map(map["mode" := Text("mode.api_key"), "issuer" := Text("control-tower")])
    case BearerLegacy => Map(Legacy(date, ref))
  }

  function AllModes(app: string, url: string, date: string, ref: string): Value {
    Map(map["accepted_modes" := List(seq(4, i requires 0 <= i < 4 => EntryFor(ALL_MODES[i], app, url, date, ref)))])
  }

  function ServiceWith(contract: Value): Value {
    Map(map["local" := Map(map["status" := Text("ready"),
                               "runtime_contract" := Map(map["auth_contract" := contract])])])
  }

  /** The values are as the rule wants them, and the code shows every mode. */
  ghost predicate Fitting(world: World, terms: Terms, app: string, url: string, date: string, ref: string) {
    && AppId(app) && terms.isHttpUrl(url) && WebUrl(url, world.isSpace)
    && Calendar(date).Some? && Calendar(date).value > terms.runDate && Calendar(date).value > world.auditDate
    && (terms.waivers != {} ==> ref in terms.waivers)
    && (world.codePaths != [] ==> forall m :: Implemented(world, m))
  }

  ghost predicate EntryPasses(world: World, terms: Terms, service: string, entry: Value) {
    EntryByRule(terms, service, entry) && Narrow(world, entry)
  }

  lemma EntryForMode(mode: Mode, app: string, url: string, date: string, ref: string)
    ensures ApprovedMode(EntryFor(mode, app, url, date, ref)) == Some(mode)
  {
  }

  lemma KeyedPasses(world: World, terms: Terms, name: string, app: string, url: string, mode: Mode)
    requires ApprovedMode(Keyed(name, app, url)) == Some(mode) && (mode == UserOidc || mode == ServiceRs256)
    requires AppId(app) && terms.isHttpUrl(url) && WebUrl(url, world.isSpace)
    ensures EntryPasses(world, terms, app, Keyed(name, app, url))
  {
    assert Keyed(name, app, url).fields.Keys == {"mode", "audience", "jwks_url"};
  }

  lemma LegacyEntryPasses(world: World, terms: Terms, service: string, date: string, ref: string)
    requires Calendar(date).Some? && Calendar(date).value > terms.runDate && Calendar(date).value > world.auditDate
    requires terms.waivers != {} ==> ref in terms.waivers
    ensures EntryPasses(world, terms, service, Map(Legacy(date, ref)))
  {
    assert ApprovedMode(Map(Legacy(date, ref))) == Some(BearerLegacy);
    assert Legacy(date, ref).Keys == {"mode", "deprecation_close_date", "waiver_ref"};
  }

  lemma KeyEntryPasses(world: World, terms: Terms, service: string, entry: Value)
    requires ApprovedMode(entry) == Some(ApiKey)
    requires entry == Map(map["mode" := Text("mode.api_key"), "issuer" := Text("control-tower")])
    ensures EntryPasses(world, terms, service, entry)
  {
    assert entry.fields.Keys == {"mode", "issuer"};
  }

  lemma EntryForPasses(world: World, terms: Terms, mode: Mode, app: string, url: string, date: string, ref: string)
    requires Fitting(world, terms, app, url, date, ref)
    ensures EntryPasses(world, terms, app, EntryFor(mode, app, url, date, ref))
  {
    EntryForMode(mode, app, url, date, ref);
    match mode
    case UserOidc => KeyedPasses(world, terms, "mode.user_oidc", app, url, UserOidc);
    case ServiceRs256 => KeyedPasses(world, terms, "mode.service_rs256", app, url, ServiceRs256);
    case ApiKey => KeyEntryPasses(world, terms, app, EntryFor(mode, app, url, date, ref));
    case BearerLegacy => LegacyEntryPasses(world, terms, app, date, ref);
  }

  lemma AllDeclared(m: Mode, app: string, url: string, date: string, ref: string)
    ensures DeclaredIn(AcceptedModes(AllModes(app, url, date, ref)).items, ModeName(m))
  {
    var entries := AcceptedModes(AllModes(app, url, date, ref)).items;
    var i := match m case UserOidc => 0 case ServiceRs256 => 1 case ApiKey => 2 case BearerLegacy => 3;
    EntryForMode(m, app, url, date, ref);
    assert entries[i] == EntryFor(m, app, url, date, ref);
    assert StringMode(entries[i]) == Some(ModeName(m));
  }

  lemma EntriesPass(world: World, terms: Terms, service: string, contract: Value, entries: seq<Value>)
    requires contract == Map(map["accepted_modes" := List(entries)]) && entries != []
    requires forall i :: 0 <= i < |entries| ==> EntryPasses(world, terms, service, entries[i])
    requires forall i, j :: 0 <= i < j < |entries| ==> ApprovedMode(entries[i]) != ApprovedMode(entries[j])
    requires world.codePaths != [] ==> forall m :: DeclaredIn(entries, ModeName(m)) && Implemented(world, m)
    ensures DeclarationByRule(terms, service, contract) && NarrowContract(world, contract)
  {
    assert AcceptedModes(contract) == List(entries) && contract.fields.Keys == {"accepted_modes"};
    forall i | 0 <= i < |entries|
      ensures EntryByRule(terms, service, entries[i]) && Narrow(world, entries[i])
    {
      assert EntryPasses(world, terms, service, entries[i]);
    }
  }

  lemma AllModesPass(world: World, terms: Terms, app: string, url: string, date: string, ref: string)
    requires Fitting(world, terms, app, url, date, ref)
    ensures DeclarationByRule(terms, app, AllModes(app, url, date, ref))
    ensures NarrowContract(world, AllModes(app, url, date, ref))
  {
    var entries := AcceptedModes(AllModes(app, url, date, ref)).items;
    forall i | 0 <= i < 4
      ensures EntryPasses(world, terms, app, entries[i]) && ApprovedMode(entries[i]) == Some(ALL_MODES[i])
    {
      EntryForMode(ALL_MODES[i], app, url, date, ref);
      EntryForPasses(world, terms, ALL_MODES[i], app, url, date, ref);
    }
    forall m
      ensures DeclaredIn(entries, ModeName(m))
    {
      AllDeclared(m, app, url, date, ref);
    }
    EntriesPass(world, terms, app, AllModes(app, url, date, ref), entries);
  }

  /** A service that declares every mode with fitting values meets the rule and is not
      reported. */
  lemma AllModesService(world: World, terms: Terms, app: string, url: string, date: string, ref: string)
    requires Sees(world, terms) && Fitting(world, terms, app, url, date, ref)
    ensures ServiceByRule(terms, app, ServiceWith(AllModes(app, url, date, ref)))
    ensures Silent(world, ServiceWith(AllModes(app, url, date, ref)))
  {
    var contract := AllModes(app, url, date, ref);
    AllModesPass(world, terms, app, url, date, ref);
    assert ContractOf(ServiceWith(contract)) == contract;
    assert Status(ServiceWith(contract)) == Text("ready") && |"ready"| != 7;
    ServiceExactly(world, terms, app, ServiceWith(contract));
  }

  const OMNI_KEYS := "https://ct.example.com/.well-known/jwks.json"

  lemma OmniFits(app: string, date: string)
    requires app == "omni-service" && date == "2099-12-31"
    ensures AppId(app) && Calendar(date) == Some(766644)
  {
    BareAppIdExactly(app);
    DateOf(date, 2099, 12, 31);
    assert DaysBefore(2099, 12) == 334;
  }

  /** Such as the one of the repository's fixture, until the end of the year 2099. */
  lemma OmniServicePasses(world: World, terms: Terms, app: string, date: string)
    requires app == "omni-service" && date == "2099-12-31"
    requires Sees(world, terms) && terms.waivers <= {"omni-bearer-waiver"}
    requires terms.runDate < 766644 && world.auditDate < 766644
    requires terms.isHttpUrl(OMNI_KEYS) && Solid(OMNI_KEYS[8..], world.isSpace)
    requires world.codePaths != [] ==> forall m :: Implemented(world, m)
    ensures
      var config := ServiceWith(AllModes(app, OMNI_KEYS, date, "omni-bearer-waiver"));
      ServiceByRule(terms, app, config) && Silent(world, config)
  {
    OmniFits(app, date);
    assert OMNI_KEYS == "https://" + OMNI_KEYS[8..];
    AllModesService(world, terms, app, OMNI_KEYS, date, "omni-bearer-waiver");
  }
}
