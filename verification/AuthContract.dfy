/** The SVC-003 evaluator: does a service's auth contract declare approved modes,
    each once and with sound metadata, and do the declared modes agree with the code? */
module AuthContract {
  import opened AuthTerms
  import opened Ordering
  import opened Text

  /** A parsed YAML value; `Scalar` stands for numbers, booleans and bare dates. */
  datatype Value = Null | Scalar | Text(text: string) | List(items: seq<Value>) | Map(fields: map<string, Value>)

  datatype Mode = UserOidc | ServiceRs256 | ApiKey | BearerLegacy

  const APPROVED_MODES := [UserOidc, ServiceRs256, ApiKey, BearerLegacy]

  /** What the evaluator looks at besides the manifest. */
  datatype World = World(codePaths: seq<string>, contents: map<string, string>, knownWaivers: Option<set<string>>,
                         auditDate: int, parseDate: string -> Option<int>, isSpace: char -> bool)

  datatype Signal =
    | MissingAuthContract
    | AuthContractWrongType
    | EmptyAcceptedModes
    | AcceptedModesWrongType
    | MalformedEntry(index: nat)
    | MalformedMode(index: nat)
    | UnknownMode(index: nat)
    | UnknownField(mode: Mode, index: nat)
    | MissingMetadata(mode: Mode, index: nat)
    | AudienceInvalid(mode: Mode, index: nat)
    | JwksUrlInvalid(mode: Mode, index: nat)
    | WaiverNotFound(index: nat)
    | CloseDateMalformed(index: nat)
    | CloseDatePassed(index: nat)
    | DuplicateMode(name: string)
    | ImplMissing(mode: Mode)
    | ImplUndeclared(mode: Mode)

  function ModeName(mode: Mode): (name: string)
    ensures name in NEEDED && name in PERMITTED && name in SIGNS
  {
    match mode
    case UserOidc => "mode.user_oidc"
    case ServiceRs256 => "mode.service_rs256"
    case ApiKey => "mode.api_key"
    case BearerLegacy => "mode.bearer_legacy"
  }

  function ModeOf(name: string): (r: Option<Mode>)
    ensures r.Some? ==> ModeName(r.value) == name
    ensures r.None? ==> forall mode :: ModeName(mode) != name
  {
    if name == "mode.user_oidc" then Some(UserOidc)
    else if name == "mode.service_rs256" then Some(ServiceRs256)
    else if name == "mode.api_key" then Some(ApiKey)
    else if name == "mode.bearer_legacy" then Some(BearerLegacy)
    else None
  }

  lemma ModeNamesDiffer(m: Mode, m': Mode)
    ensures ModeName(m) == ModeName(m') ==> m == m'
  {
    assert ModeName(UserOidc)[5] == 'u' && ModeName(ServiceRs256)[5] == 's'
        && ModeName(ApiKey)[5] == 'a' && ModeName(BearerLegacy)[5] == 'b';
    assert ModeName(m) == ModeName(m') ==> ModeName(m)[5] == ModeName(m')[5];
  }

  function RequiredFields(mode: Mode): seq<string> {
    match mode
    case UserOidc => ["audience", "jwks_url"]
    case ServiceRs256 => ["audience", "jwks_url"]
    case ApiKey => ["issuer"]
    case BearerLegacy => ["deprecation_close_date", "waiver_ref"]
  }

  function AllowedFields(mode: Mode): set<string> {
    match mode
    case UserOidc => {"mode", "notes", "audience", "jwks_url"}
    case ServiceRs256 => {"mode", "notes", "audience", "jwks_url"}
    case ApiKey => {"mode", "notes", "issuer", "key_id_prefix"}
    case BearerLegacy => {"mode", "notes", "deprecation_close_date", "waiver_ref"}
  }

  function Markers(mode: Mode): seq<string> {
    match mode
    case UserOidc => ["ControlTowerAuth", "ct_auth.", "create_bff_routes", "CT_JWKS_URL"]
    case ServiceRs256 => ["algorithms=[\"RS256\"]", "algorithms=['RS256']", "algorithm=\"RS256\"", "algorithm='RS256'"]
    case ApiKey => ["X-API-Key", "x-api-key"]
    case BearerLegacy => ["secrets.compare_digest"]
  }

  function Field(value: Value, name: string): Value {
    if value.Map? && name in value.fields then value.fields[name] else Null
  }

  // ---- the code scan

  predicate ContainsText(content: string, marker: string) {
    exists i :: 0 <= i <= |content| && marker <= content[i..]
  }

  function Content(world: World, path: string): string {
    if path in world.contents then world.contents[path] else ""
  }

  /** Some scanned file that can be read shows a sign of the mode. */
  ghost predicate Implemented(world: World, mode: Mode) {
    exists path, sign ::
      path in world.codePaths && path in world.contents && sign in SIGNS[ModeName(mode)]
      && Shows(world.contents[path], sign)
  }

  lemma ContainsExactly(content: string, marker: string)
    ensures ContainsText(content, marker) <==> Shows(content, marker)
  {
    if ContainsText(content, marker) {
      var i :| 0 <= i <= |content| && marker <= content[i..];
      assert content == content[..i] + marker + content[i + |marker|..];
    }
    if Shows(content, marker) {
      var before, after :| content == before + marker + after;
      assert content[|before|..] == marker + after;
    }
  }

  lemma MarkersAreSigns(mode: Mode)
    ensures forall text :: text in Markers(mode) <==> text in SIGNS[ModeName(mode)]
  {
    var m := Markers(mode);
    assert m[0] in m && (|m| > 1 ==> m[1] in m) && (|m| > 2 ==> m[2] in m && m[3] in m);
  }

  lemma NothingInEmpty(mode: Mode)
    ensures forall marker :: marker in Markers(mode) ==> !ContainsText("", marker)
  {
    assert forall i :: 0 <= i < |Markers(mode)| ==> |Markers(mode)[i]| > 0;
  }

  lemma FoundIsImplemented(world: World, mode: Mode, path: string, marker: string)
    requires path in world.codePaths && marker in Markers(mode) && ContainsText(Content(world, path), marker)
    ensures Implemented(world, mode)
  {
    MarkersAreSigns(mode);
    NothingInEmpty(mode);
    ContainsExactly(Content(world, path), marker);
  }

  lemma NotFoundIsNotShown(world: World, mode: Mode, path: string, sign: string)
    requires path in world.contents && sign in SIGNS[ModeName(mode)]
    requires forall marker :: marker in Markers(mode) ==> !ContainsText(Content(world, path), marker)
    ensures !Shows(world.contents[path], sign)
  {
    MarkersAreSigns(mode);
    assert sign in Markers(mode);
    ContainsExactly(world.contents[path], sign);
  }

  lemma NothingFound(world: World, mode: Mode)
    requires forall path, marker ::
      path in world.codePaths && marker in Markers(mode) ==> !ContainsText(Content(world, path), marker)
    ensures !Implemented(world, mode)
  {
    forall path, sign | path in world.codePaths && path in world.contents && sign in SIGNS[ModeName(mode)]
      ensures !Shows(world.contents[path], sign)
    {
      NotFoundIsNotShown(world, mode, path, sign);
    }
  }

  method FirstMarker(content: string, mode: Mode) returns (r: Option<string>)
    ensures r.Some? ==> r.value in Markers(mode) && ContainsText(content, r.value)
    ensures r.None? ==> forall marker :: marker in Markers(mode) ==> !ContainsText(content, marker)
  {
    var markers := Markers(mode);
    for i := 0 to |markers|
      invariant forall j :: 0 <= j < i ==> !ContainsText(content, markers[j])
    {
      if ContainsText(content, markers[i]) {
        return Some(markers[i]);
      }
    }
    return None;
  }

  /** The hits of one mode: the first marker found in each file that has one. */
  method ModeMarkerHits(world: World, mode: Mode) returns (hits: seq<(string, string)>)
    ensures hits != [] <==> Implemented(world, mode)
    ensures forall h :: h in hits ==>
      h.0 in world.codePaths && h.1 in Markers(mode) && ContainsText(Content(world, h.0), h.1)
  {
    hits := [];
    NothingInEmpty(mode);
    for i := 0 to |world.codePaths|
      invariant hits == [] ==> forall j, marker :: 0 <= j < i && marker in Markers(mode) ==>
        !ContainsText(Content(world, world.codePaths[j]), marker)
      invariant forall h :: h in hits ==>
        h.0 in world.codePaths && h.1 in Markers(mode) && ContainsText(Content(world, h.0), h.1)
    {
      var content := Content(world, world.codePaths[i]);
      if content == "" {
        continue;
      }
      var marker := FirstMarker(content, mode);
      if marker.Some? {
        hits := hits + [(world.codePaths[i], marker.value)];
      }
    }
    if hits != [] {
      assert hits[0] in hits;
      FoundIsImplemented(world, mode, hits[0].0, hits[0].1);
    } else {
      NothingFound(world, mode);
    }
  }

  // ---- one entry

  /** `^[a-z][a-z0-9-]*$`, matched in full */
  predicate BareAppId(s: string) {
    && s != "" && 'a' <= s[0] <= 'z'
    && forall i :: 0 < i < |s| ==> 'a' <= s[i] <= 'z' || '0' <= s[i] <= '9' || s[i] == '-'
  }

  lemma BareAppIdExactly(s: string)
    ensures BareAppId(s) <==> AppId(s)
  {
    var words := Split(s, '-');
    SplitChars(s, '-');
    SplitFirst(s, '-');
    if BareAppId(s) {
      forall w, c | w in words && c in w
        ensures IsLetter(c) || IsDigit(c)
      {
        assert c in s;
      }
    }
    if AppId(s) {
      forall i | 0 < i < |s|
        ensures IsLetter(s[i]) || IsDigit(s[i]) || s[i] == '-'
      {
        assert s[i] in s;
      }
    }
  }

  /** `^https?://[^\s]+$`, matched in full */
  predicate HttpUrl(world: World, s: string) {
    || (|s| > 7 && s[..7] == "http://" && NoSpace(world, s[7..]))
    || (|s| > 8 && s[..8] == "https://" && NoSpace(world, s[8..]))
  }

  predicate NoSpace(world: World, s: string) {
    forall i :: 0 <= i < |s| ==> !world.isSpace(s[i])
  }

  lemma HttpUrlExactly(world: World, s: string)
    ensures HttpUrl(world, s) <==> WebUrl(s, world.isSpace)
  {
    if |s| > 7 && s[..7] == "http://" && NoSpace(world, s[7..]) {
      assert s == "http://" + s[7..] && Solid(s[7..], world.isSpace);
    }
    if |s| > 8 && s[..8] == "https://" && NoSpace(world, s[8..]) {
      assert s == "https://" + s[8..] && Solid(s[8..], world.isSpace);
    }
    if rest :| (s == "http://" + rest || s == "https://" + rest) && Solid(rest, world.isSpace) {
      assert s == "http://" + rest ==> s[..7] == "http://" && s[7..] == rest;
      assert s == "https://" + rest ==> s[..8] == "https://" && s[8..] == rest;
    }
  }

  function StringMode(entry: Value): Option<string> {
    if entry.Map? && Field(entry, "mode").Text? then Some(Field(entry, "mode").text) else None
  }

  function ApprovedMode(entry: Value): Option<Mode> {
    if StringMode(entry).Some? then ModeOf(StringMode(entry).value) else None
  }

  predicate HasUnknownField(entry: Value, mode: Mode)
    requires entry.Map?
  {
    exists f :: f in entry.fields && f !in AllowedFields(mode)
  }

  predicate Complete(entry: Value, mode: Mode)
    requires entry.Map?
  {
    forall f :: f in RequiredFields(mode) ==> f in entry.fields
  }

  predicate BadAudience(entry: Value) {
    Field(entry, "audience").Text? && !BareAppId(Field(entry, "audience").text)
  }

  predicate BadJwksUrl(world: World, entry: Value) {
    Field(entry, "jwks_url").Text? && !HttpUrl(world, Field(entry, "jwks_url").text)
  }

  predicate BadWaiverRef(world: World, entry: Value) {
    var ref := Field(entry, "waiver_ref");
    world.knownWaivers.Some? && ref.Text? && ref.text != "" && ref.text !in world.knownWaivers.value
  }

  /** The date, and whether something was there that is no date. */
  function ParseCloseDate(world: World, value: Value): (Option<int>, bool) {
    if value.Null? then (None, false)
    else if !value.Text? then (None, true)
    else if world.parseDate(value.text).Some? then (world.parseDate(value.text), false)
    else (None, true)
  }

  predicate Verified(mode: Mode) {
    mode.UserOidc? || mode.ServiceRs256?
  }

  // ---- what an entry earns

  /** Some field is not one of the mode's. */
  predicate Strange(entry: Value, mode: Mode) {
    entry.Map? && !(entry.fields.Keys <= PERMITTED[ModeName(mode)])
  }

  /** No field the mode needs is missing. */
  predicate Full(entry: Value, mode: Mode) {
    entry.Map? && NEEDED[ModeName(mode)] <= entry.fields.Keys
  }

  lemma FieldsExactly(entry: Value, mode: Mode)
    requires entry.Map?
    ensures HasUnknownField(entry, mode) <==> Strange(entry, mode)
    ensures Complete(entry, mode) <==> Full(entry, mode)
  {
    var r := RequiredFields(mode);
    assert AllowedFields(mode) == PERMITTED[ModeName(mode)];
    assert r[0] in r && (|r| > 1 ==> r[1] in r);
    forall f
      ensures f in r <==> f in NEEDED[ModeName(mode)]
    {
    }
  }

  /** When an entry earns a signal. */
  ghost predicate EntryEarns(world: World, entry: Value, i: nat, s: Signal) {
    match s
    case MalformedEntry(j) => j == i && !entry.Map?
    case MalformedMode(j) => j == i && entry.Map? && StringMode(entry).None?
    case UnknownMode(j) => j == i && StringMode(entry).Some? && StringMode(entry).value !in NEEDED
    case UnknownField(m, j) => j == i && ApprovedMode(entry) == Some(m) && Strange(entry, m)
    case MissingMetadata(m, j) => j == i && ApprovedMode(entry) == Some(m) && !Full(entry, m)
    case AudienceInvalid(m, j) =>
      j == i && ApprovedMode(entry) == Some(m) && Full(entry, m) && (m == UserOidc || m == ServiceRs256)
      && entry.fields["audience"].Text? && !AppId(entry.fields["audience"].text)
    case JwksUrlInvalid(m, j) =>
      j == i && ApprovedMode(entry) == Some(m) && Full(entry, m) && (m == UserOidc || m == ServiceRs256)
      && entry.fields["jwks_url"].Text? && !WebUrl(entry.fields["jwks_url"].text, world.isSpace)
    case WaiverNotFound(j) =>
      j == i && ApprovedMode(entry) == Some(BearerLegacy) && Full(entry, BearerLegacy)
      && var ref := entry.fields["waiver_ref"];
         ref.Text? && ref.text != "" && world.knownWaivers.Some? && ref.text !in world.knownWaivers.value
    case CloseDateMalformed(j) =>
      j == i && ApprovedMode(entry) == Some(BearerLegacy) && Full(entry, BearerLegacy)
      && var date := entry.fields["deprecation_close_date"];
         !date.Null? && !(date.Text? && world.parseDate(date.text).Some?)
    case CloseDatePassed(j) =>
      j == i && ApprovedMode(entry) == Some(BearerLegacy) && Full(entry, BearerLegacy)
      && var date := entry.fields["deprecation_close_date"];
         date.Text? && world.parseDate(date.text).Some? && world.parseDate(date.text).value <= world.auditDate
    case _ => false
  }

  /** The body of the loop over `accepted_modes`, apart from its bookkeeping of modes. */
  method EntryFindings(world: World, entry: Value, i: nat) returns (findings: seq<Signal>)
    ensures forall s :: s in findings <==> EntryEarns(world, entry, i, s)
    ensures Distinct(findings)
  {
    if !entry.Map? {
      return [MalformedEntry(i)];
    }
    var modeValue := Field(entry, "mode");
    if !modeValue.Text? {
      return [MalformedMode(i)];
    }
    var approved := ModeOf(modeValue.text);
    if approved.None? {
      return [UnknownMode(i)];
    }
    findings := ApprovedFindings(world, entry, approved.value, i);
  }

  /** The checks of an entry with an approved mode. */
  method ApprovedFindings(world: World, entry: Value, mode: Mode, i: nat) returns (findings: seq<Signal>)
    requires entry.Map? && ApprovedMode(entry) == Some(mode)
    ensures forall s :: s in findings <==> EntryEarns(world, entry, i, s)
    ensures Distinct(findings)
  {
    findings := [];
    FieldsExactly(entry, mode);
    if HasUnknownField(entry, mode) {
      findings := findings + [UnknownField(mode, i)];
    }
    if !Complete(entry, mode) {
      return findings + [MissingMetadata(mode, i)];
    }
    var details := MetadataFindings(world, entry, mode, i);
    assert UnknownField(mode, i) !in details;
    ConcatDistinct(findings, details);
    findings := findings + details;
  }

  lemma ValuesExactly(world: World, entry: Value)
    ensures BadAudience(entry) <==>
              Field(entry, "audience").Text? && !AppId(Field(entry, "audience").text)
    ensures BadJwksUrl(world, entry) <==>
              Field(entry, "jwks_url").Text? && !WebUrl(Field(entry, "jwks_url").text, world.isSpace)
  {
    if Field(entry, "audience").Text? {
      BareAppIdExactly(Field(entry, "audience").text);
    }
    if Field(entry, "jwks_url").Text? {
      HttpUrlExactly(world, Field(entry, "jwks_url").text);
    }
  }

  /** The checks of a complete entry's values. */
  method MetadataFindings(world: World, entry: Value, mode: Mode, i: nat) returns (findings: seq<Signal>)
    requires entry.Map? && ApprovedMode(entry) == Some(mode) && Complete(entry, mode)
    ensures forall s :: s in findings <==> EntryEarns(world, entry, i, s) && !s.UnknownField?
    ensures Distinct(findings)
  {
    findings := [];
    FieldsExactly(entry, mode);
    if Verified(mode) {
      ValuesExactly(world, entry);
      if BadAudience(entry) {
        findings := findings + [AudienceInvalid(mode, i)];
      }
      if BadJwksUrl(world, entry) {
        findings := findings + [JwksUrlInvalid(mode, i)];
      }
    }
    if mode == BearerLegacy {
      findings := LegacyFindings(world, entry, i);
    }
  }

  method LegacyFindings(world: World, entry: Value, i: nat) returns (findings: seq<Signal>)
    requires entry.Map? && ApprovedMode(entry) == Some(BearerLegacy) && Complete(entry, BearerLegacy)
    ensures forall s :: s in findings <==> EntryEarns(world, entry, i, s) && !s.UnknownField?
    ensures Distinct(findings)
  {
    findings := [];
    FieldsExactly(entry, BearerLegacy);
    if BadWaiverRef(world, entry) {
      findings := findings + [WaiverNotFound(i)];
    }
    var (closeDate, malformed) := ParseCloseDate(world, Field(entry, "deprecation_close_date"));
    if malformed {
      findings := findings + [CloseDateMalformed(i)];
    } else if closeDate.Some? && closeDate.value <= world.auditDate {
      findings := findings + [CloseDatePassed(i)];
    }
  }

  // ---- one contract

  function AcceptedModes(contract: Value): Value {
    Field(contract, "accepted_modes")
  }

  ghost predicate DeclaredIn(entries: seq<Value>, name: string) {
    exists i :: 0 <= i < |entries| && StringMode(entries[i]) == Some(name)
  }

  ghost predicate DeclaredTwice(entries: seq<Value>, name: string) {
    exists i, j ::
      0 <= i < j < |entries| && StringMode(entries[i]) == Some(name) && StringMode(entries[j]) == Some(name)
  }

  /** When a non-empty list of entries earns a signal. */
  ghost predicate ListEarns(world: World, entries: seq<Value>, s: Signal) {
    match s
    case DuplicateMode(name) => DeclaredTwice(entries, name)
    case ImplMissing(m) => world.codePaths != [] && DeclaredIn(entries, ModeName(m)) && !Implemented(world, m)
    case ImplUndeclared(m) => world.codePaths != [] && !DeclaredIn(entries, ModeName(m)) && Implemented(world, m)
    case _ => exists i :: 0 <= i < |entries| && EntryEarns(world, entries[i], i, s)
  }

  /** When an auth contract earns a signal. */
  ghost predicate Earns(world: World, contract: Value, s: Signal) {
    var modes := AcceptedModes(contract);
    if contract.Null? then s == MissingAuthContract
    else if !contract.Map? then s == AuthContractWrongType
    else if modes.Null? || (modes.List? && modes.items == []) then s == EmptyAcceptedModes
    else if !modes.List? then s == AcceptedModesWrongType
    else ListEarns(world, modes.items, s)
  }

  predicate EntryKind(s: Signal) {
    !s.DuplicateMode? && !s.ImplMissing? && !s.ImplUndeclared?
  }

  lemma DeclaredSnoc(entries: seq<Value>, i: nat, name: string)
    requires i < |entries|
    ensures DeclaredIn(entries[..i + 1], name) <==>
      DeclaredIn(entries[..i], name) || StringMode(entries[i]) == Some(name)
    ensures DeclaredTwice(entries[..i + 1], name) <==>
      DeclaredTwice(entries[..i], name) || (DeclaredIn(entries[..i], name) && StringMode(entries[i]) == Some(name))
  {
    var a, b := entries[..i], entries[..i + 1];
    assert b == a + [entries[i]];
    if DeclaredIn(a, name) {
      var k :| 0 <= k < |a| && StringMode(a[k]) == Some(name);
      assert b[k] == a[k];
    }
    if StringMode(entries[i]) == Some(name) {
      assert b[i] == entries[i];
    }
    if DeclaredTwice(a, name) {
      var k, l :| 0 <= k < l < |a| && StringMode(a[k]) == Some(name) && StringMode(a[l]) == Some(name);
      assert b[k] == a[k] && b[l] == a[l];
    }
  }

  /** The loop over the entries: their findings, the modes in order of first
      declaration, and the modes declared more than once. */
  method ScanEntries(world: World, entries: seq<Value>)
    returns (findings: seq<Signal>, declared: seq<string>, duplicates: set<string>)
    ensures forall s :: s in findings <==> exists i :: 0 <= i < |entries| && EntryEarns(world, entries[i], i, s)
    ensures forall name :: name in declared <==> DeclaredIn(entries, name)
    ensures forall name :: name in duplicates <==> DeclaredTwice(entries, name)
    ensures Distinct(findings) && Distinct(declared)
  {
    findings, declared, duplicates := [], [], {};
    var seen: set<string> := {};
    for i := 0 to |entries|
      invariant forall s :: s in findings <==> exists k :: 0 <= k < i && EntryEarns(world, entries[k], k, s)
      invariant forall name :: name in declared <==> name in seen
      invariant forall name :: name in seen <==> DeclaredIn(entries[..i], name)
      invariant forall name :: name in duplicates <==> DeclaredTwice(entries[..i], name)
      invariant Distinct(findings) && Distinct(declared)
    {
      var more := EntryFindings(world, entries[i], i);
      forall k | 0 <= k < |findings|
        ensures findings[k] !in more
      {
        assert findings[k] in findings;
        EarnedByOne(world, entries, i, findings[k]);
      }
      ConcatDistinct(findings, more);
      findings := findings + more;
      forall name
        ensures DeclaredIn(entries[..i + 1], name) <==>
          DeclaredIn(entries[..i], name) || StringMode(entries[i]) == Some(name)
        ensures DeclaredTwice(entries[..i + 1], name) <==>
          DeclaredTwice(entries[..i], name) || (DeclaredIn(entries[..i], name) && StringMode(entries[i]) == Some(name))
      {
        DeclaredSnoc(entries, i, name);
      }
      var mode := StringMode(entries[i]);
      if mode.Some? {
        if mode.value in seen {
          duplicates := duplicates + {mode.value};
        } else {
          seen := seen + {mode.value};
          declared := declared + [mode.value];
        }
      }
    }
    assert entries[..|entries|] == entries;
  }

  lemma EarnedByOne(world: World, entries: seq<Value>, i: nat, s: Signal)
    requires i < |entries| && exists k :: 0 <= k < i && EntryEarns(world, entries[k], k, s)
    ensures !EntryEarns(world, entries[i], i, s)
  {
  }

  method DuplicateFindings(duplicates: set<string>) returns (findings: seq<Signal>)
    ensures forall s :: s in findings <==> s.DuplicateMode? && s.name in duplicates
    ensures Distinct(findings)
  {
    findings := [];
    var pending := duplicates;
    while pending != {}
      invariant pending <= duplicates && Distinct(findings)
      invariant forall s :: s in findings <==> s.DuplicateMode? && s.name in duplicates && s.name !in pending
    {
      var name :| name in pending;
      findings, pending := findings + [DuplicateMode(name)], pending - {name};
    }
  }

  /** Declared modes that no marker backs. */
  method MissingImplementations(world: World, declared: seq<string>) returns (findings: seq<Signal>)
    requires Distinct(declared)
    ensures forall s :: s in findings <==> s.ImplMissing? && ModeName(s.mode) in declared && !Implemented(world, s.mode)
    ensures Distinct(findings)
  {
    findings := [];
    for i := 0 to |declared|
      invariant forall s :: s in findings <==>
        s.ImplMissing? && ModeName(s.mode) in declared[..i] && !Implemented(world, s.mode)
      invariant Distinct(findings)
    {
      var mode := ModeOf(declared[i]);
      assert declared[..i + 1] == declared[..i] + [declared[i]];
      if mode.None? {
        continue;
      }
      var hits := ModeMarkerHits(world, mode.value);
      forall m: Mode
        ensures ModeName(m) == declared[i] <==> m == mode.value
      {
        ModeNamesDiffer(m, mode.value);
      }
      if hits == [] {
        findings := findings + [ImplMissing(mode.value)];
      }
    }
    assert declared[..|declared|] == declared;
  }

  /** Modes the code implements but the contract does not declare. */
  method UndeclaredImplementations(world: World, declared: seq<string>) returns (findings: seq<Signal>)
    ensures forall s :: s in findings <==>
      s.ImplUndeclared? && ModeName(s.mode) !in declared && Implemented(world, s.mode)
    ensures Distinct(findings)
  {
    findings := [];
    for i := 0 to |APPROVED_MODES|
      invariant forall s :: s in findings <==>
        && s.ImplUndeclared? && s.mode in APPROVED_MODES[..i]
        && ModeName(s.mode) !in declared && Implemented(world, s.mode)
      invariant Distinct(findings)
    {
      var mode := APPROVED_MODES[i];
      assert APPROVED_MODES[..i + 1] == APPROVED_MODES[..i] + [mode] && mode !in APPROVED_MODES[..i];
      if ModeName(mode) in declared {
        continue;
      }
      var hits := ModeMarkerHits(world, mode);
      if hits != [] {
        findings := findings + [ImplUndeclared(mode)];
      }
    }
    assert APPROVED_MODES[..|APPROVED_MODES|] == APPROVED_MODES;
    forall m: Mode
      ensures m in APPROVED_MODES
    {
      match m
      case UserOidc => assert APPROVED_MODES[0] == m;
      case ServiceRs256 => assert APPROVED_MODES[1] == m;
      case ApiKey => assert APPROVED_MODES[2] == m;
      case BearerLegacy => assert APPROVED_MODES[3] == m;
    }
  }

  /** The code half of the check; skipped when no code was scanned. */
  method ImplementationFindings(world: World, declared: seq<string>) returns (findings: seq<Signal>)
    requires Distinct(declared)
    ensures forall s :: s in findings <==>
      || (world.codePaths != [] && s.ImplMissing? && ModeName(s.mode) in declared && !Implemented(world, s.mode))
      || (world.codePaths != [] && s.ImplUndeclared? && ModeName(s.mode) !in declared && Implemented(world, s.mode))
    ensures Distinct(findings)
  {
    if world.codePaths == [] {
      return [];
    }
    var missing := MissingImplementations(world, declared);
    var undeclared := UndeclaredImplementations(world, declared);
    Disjoint(missing, undeclared);
    findings := missing + undeclared;
  }

  /** A non-empty list of entries. */
  method ListFindings(world: World, entries: seq<Value>) returns (findings: seq<Signal>)
    ensures forall s :: s in findings <==> ListEarns(world, entries, s)
    ensures Distinct(findings)
  {
    var scanned, declared, duplicates := ScanEntries(world, entries);
    var duplicated := DuplicateFindings(duplicates);
    var implementation := ImplementationFindings(world, declared);
    ScannedKinds(world, entries, scanned);
    PartsEarn(world, entries, scanned, duplicated, implementation);
    Disjoint(duplicated, implementation);
    Disjoint(scanned, duplicated + implementation);
    findings := scanned + (duplicated + implementation);
  }

  ghost predicate ImplementationEarns(world: World, entries: seq<Value>, s: Signal) {
    || (world.codePaths != [] && s.ImplMissing? && DeclaredIn(entries, ModeName(s.mode)) && !Implemented(world, s.mode))
    || (world.codePaths != [] && s.ImplUndeclared?
        && !DeclaredIn(entries, ModeName(s.mode)) && Implemented(world, s.mode))
  }

  /** The three parts of the list's findings are of different kinds and together
      everything the list earns. */
  lemma PartsEarn(world: World, entries: seq<Value>,
                  scanned: seq<Signal>, duplicated: seq<Signal>, implementation: seq<Signal>)
    requires forall s :: s in scanned ==> EntryKind(s)
    requires forall s :: EntryKind(s) ==> (s in scanned <==> ListEarns(world, entries, s))
    requires forall s :: s in duplicated <==> s.DuplicateMode? && DeclaredTwice(entries, s.name)
    requires forall s :: s in implementation <==> ImplementationEarns(world, entries, s)
    ensures forall s :: s in scanned + (duplicated + implementation) <==> ListEarns(world, entries, s)
    ensures forall s :: s in duplicated ==> s !in implementation
    ensures forall s :: s in scanned ==> s !in duplicated + implementation
  {
  }

  lemma ScannedKinds(world: World, entries: seq<Value>, scanned: seq<Signal>)
    requires forall s :: s in scanned <==> exists i :: 0 <= i < |entries| && EntryEarns(world, entries[i], i, s)
    ensures forall s :: s in scanned ==> EntryKind(s)
    ensures forall s :: EntryKind(s) ==> (s in scanned <==> ListEarns(world, entries, s))
  {
  }

  lemma Disjoint(a: seq<Signal>, b: seq<Signal>)
    requires Distinct(a) && Distinct(b) && forall s :: s in a ==> s !in b
    ensures Distinct(a + b)
  {
    forall i | 0 <= i < |a|
      ensures a[i] !in b
    {
      assert a[i] in a;
    }
    ConcatDistinct(a, b);
  }

  /** What the evaluator reports about one contract: exactly what it earns, once each. */
  method ContractFindings(world: World, contract: Value) returns (findings: seq<Signal>)
    ensures forall s :: s in findings <==> Earns(world, contract, s)
    ensures Distinct(findings)
  {
    if contract.Null? {
      return [MissingAuthContract];
    }
    if !contract.Map? {
      return [AuthContractWrongType];
    }
    var modes := AcceptedModes(contract);
    if modes.Null? || (modes.List? && modes.items == []) {
      return [EmptyAcceptedModes];
    }
    if !modes.List? {
      return [AcceptedModesWrongType];
    }
    findings := ListFindings(world, modes.items);
  }

  // ---- every service of the manifest

  function Lower(c: char): char {
    if 'A' <= c <= 'Z' then ((c as int) + 32) as char else c
  }

  predicate IsPlanned(config: Value) {
    var status := Field(Field(config, "local"), "status");
    status.Text? && seq(|status.text|, i requires 0 <= i < |status.text| => Lower(status.text[i])) == "planned"
  }

  /** The service's status is "planned", in whatever case. */
  predicate Planned(config: Value) {
    var status := Field(Field(config, "local"), "status");
    status.Text? && FoldsToPlanned(status.text)
  }

  lemma PlannedExactly(config: Value)
    ensures IsPlanned(config) <==> Planned(config)
  {
    var status := Field(Field(config, "local"), "status");
    if status.Text? {
      FoldedExactly(status.text);
    }
  }

  lemma FoldedExactly(s: string)
    ensures seq(|s|, i requires 0 <= i < |s| => Lower(s[i])) == "planned" <==> FoldsToPlanned(s)
  {
    var folded := seq(|s|, i requires 0 <= i < |s| => Lower(s[i]));
    assert folded == "planned" <==> |s| == 7 && forall i :: 0 <= i < 7 ==> Lower(s[i]) == "planned"[i] by {
      assert |folded| == |s|;
    }
    forall i | 0 <= i < 7 && i < |s|
      ensures Lower(s[i]) == "planned"[i] <==> s[i] == "planned"[i] || s[i] == "PLANNED"[i]
    {
      CapitalOf(i);
    }
  }

  lemma CapitalOf(i: nat)
    requires i < 7
    ensures "planned"[i] as int == "PLANNED"[i] as int + 32 && 'a' <= "planned"[i] <= 'z'
  {
  }

  /** Services that are planned or have no runtime contract are not examined. */
  predicate Examined(config: Value) {
    !Planned(config) && Field(Field(config, "local"), "runtime_contract").Map?
  }

  function ContractOf(config: Value): Value {
    Field(Field(Field(config, "local"), "runtime_contract"), "auth_contract")
  }

  method Svc003Findings(world: World, services: map<string, Value>) returns (findings: seq<(string, Signal)>)
    ensures forall name, s :: (name, s) in findings <==>
      name in services && Examined(services[name]) && Earns(world, ContractOf(services[name]), s)
  {
    findings := [];
    var pending := services.Keys;
    while pending != {}
      invariant pending <= services.Keys
      invariant forall name, s :: (name, s) in findings <==>
        name in services && name !in pending && Examined(services[name]) && Earns(world, ContractOf(services[name]), s)
    {
      var name :| name in pending;
      pending := pending - {name};
      PlannedExactly(services[name]);
      if IsPlanned(services[name]) || !Field(Field(services[name], "local"), "runtime_contract").Map? {
        continue;
      }
      var signals := ContractFindings(world, ContractOf(services[name]));
      var tagged := Tag(name, signals);
      findings := findings + tagged;
    }
  }

  method Tag(name: string, signals: seq<Signal>) returns (tagged: seq<(string, Signal)>)
    ensures forall n, s :: (n, s) in tagged <==> n == name && s in signals
  {
    tagged := [];
    for i := 0 to |signals|
      invariant forall n, s :: (n, s) in tagged <==> n == name && s in signals[..i]
    {
      assert signals[..i + 1] == signals[..i] + [signals[i]];
      tagged := tagged + [(name, signals[i])];
    }
    assert signals[..|signals|] == signals;
  }

  // ---- conformance

  ghost predicate SoundMetadata(world: World, entry: Value, mode: Mode) {
    var audience, url := Field(entry, "audience"), Field(entry, "jwks_url");
    var ref, date := Field(entry, "waiver_ref"), Field(entry, "deprecation_close_date");
    && (mode == UserOidc || mode == ServiceRs256 ==>
          (audience.Text? ==> AppId(audience.text)) && (url.Text? ==> WebUrl(url.text, world.isSpace)))
    && (mode == BearerLegacy ==>
          && (world.knownWaivers.Some? && ref.Text? && ref.text != "" ==> ref.text in world.knownWaivers.value)
          && (date.Null?
              || (date.Text? && world.parseDate(date.text).Some?
                  && world.parseDate(date.text).value > world.auditDate)))
  }

  ghost predicate SoundEntry(world: World, entry: Value) {
    && entry.Map? && ApprovedMode(entry).Some?
    && entry.fields.Keys <= PERMITTED[ModeName(ApprovedMode(entry).value)]
    && NEEDED[ModeName(ApprovedMode(entry).value)] <= entry.fields.Keys
    && SoundMetadata(world, entry, ApprovedMode(entry).value)
  }

  /** A contract nothing is wrong with. */
  ghost predicate Conformant(world: World, contract: Value) {
    && contract.Map? && AcceptedModes(contract).List? && AcceptedModes(contract).items != []
    && ConformantList(world, AcceptedModes(contract).items)
  }

  /** Sound entries, distinct modes, and declared exactly what the code implements. */
  ghost predicate ConformantList(world: World, entries: seq<Value>) {
    && (forall i :: 0 <= i < |entries| ==> SoundEntry(world, entries[i]))
    && (forall i, j :: 0 <= i < j < |entries| ==> StringMode(entries[i]) != StringMode(entries[j]))
    && (world.codePaths != [] ==> forall m :: DeclaredIn(entries, ModeName(m)) <==> Implemented(world, m))
  }

  lemma QuietEntryIsSound(world: World, entry: Value, i: nat)
    requires forall s :: !EntryEarns(world, entry, i, s)
    ensures SoundEntry(world, entry)
  {
    assert !EntryEarns(world, entry, i, MalformedEntry(i));
    assert !EntryEarns(world, entry, i, MalformedMode(i));
    assert !EntryEarns(world, entry, i, UnknownMode(i));
    var m := ApprovedMode(entry).value;
    assert !EntryEarns(world, entry, i, UnknownField(m, i));
    assert !EntryEarns(world, entry, i, MissingMetadata(m, i));
    QuietMetadataIsSound(world, entry, m, i);
  }

  lemma QuietMetadataIsSound(world: World, entry: Value, m: Mode, i: nat)
    requires entry.Map? && ApprovedMode(entry) == Some(m) && Full(entry, m)
    requires forall s :: !EntryEarns(world, entry, i, s)
    ensures SoundMetadata(world, entry, m)
  {
    if Verified(m) {
      assert !EntryEarns(world, entry, i, AudienceInvalid(m, i));
      assert !EntryEarns(world, entry, i, JwksUrlInvalid(m, i));
    }
    if m.BearerLegacy? {
      assert !EntryEarns(world, entry, i, WaiverNotFound(i));
      assert !EntryEarns(world, entry, i, CloseDateMalformed(i));
      assert !EntryEarns(world, entry, i, CloseDatePassed(i));
    }
  }

  lemma SoundEntryIsQuiet(world: World, entry: Value, i: nat, s: Signal)
    requires SoundEntry(world, entry)
    ensures !EntryEarns(world, entry, i, s)
  {
  }

  lemma ConformantIsSilent(world: World, entries: seq<Value>, s: Signal)
    requires ConformantList(world, entries)
    ensures !ListEarns(world, entries, s)
  {
    forall i | 0 <= i < |entries|
      ensures !EntryEarns(world, entries[i], i, s)
    {
      SoundEntryIsQuiet(world, entries[i], i, s);
    }
  }

  lemma SilentIsConformant(world: World, entries: seq<Value>)
    requires forall s :: !ListEarns(world, entries, s)
    ensures ConformantList(world, entries)
  {
    SilentEntriesAreSound(world, entries);
    forall i, j | 0 <= i < j < |entries|
      ensures StringMode(entries[i]) != StringMode(entries[j])
    {
      assert SoundEntry(world, entries[i]);
      assert !ListEarns(world, entries, DuplicateMode(StringMode(entries[i]).value));
    }
    forall m
      ensures world.codePaths != [] ==> (DeclaredIn(entries, ModeName(m)) <==> Implemented(world, m))
    {
      assert !ListEarns(world, entries, ImplMissing(m)) && !ListEarns(world, entries, ImplUndeclared(m));
    }
  }

  /** The evaluator is a decision procedure: a contract earns no signal exactly when it
      is conformant. */
  lemma SilentExactlyWhenConformant(world: World, contract: Value)
    ensures (forall s :: !Earns(world, contract, s)) <==> Conformant(world, contract)
  {
    if forall s :: !Earns(world, contract, s) {
      assert !Earns(world, contract, MissingAuthContract);
      assert !Earns(world, contract, AuthContractWrongType);
      assert !Earns(world, contract, EmptyAcceptedModes);
      assert !Earns(world, contract, AcceptedModesWrongType);
      var entries := AcceptedModes(contract).items;
      forall s
        ensures !ListEarns(world, entries, s)
      {
        assert !Earns(world, contract, s);
      }
      SilentIsConformant(world, entries);
    }
    if Conformant(world, contract) {
      forall s
        ensures !Earns(world, contract, s)
      {
        ConformantIsSilent(world, AcceptedModes(contract).items, s);
      }
    }
  }

  lemma SilentEntriesAreSound(world: World, entries: seq<Value>)
    requires forall s :: !ListEarns(world, entries, s)
    ensures forall i :: 0 <= i < |entries| ==> SoundEntry(world, entries[i])
  {
    forall i | 0 <= i < |entries|
      ensures SoundEntry(world, entries[i])
    {
      forall s
        ensures !EntryEarns(world, entries[i], i, s)
      {
        assert !ListEarns(world, entries, s);
      }
      QuietEntryIsSound(world, entries[i], i);
    }
  }

  /** So a service gets no SVC-003 finding exactly when it is planned, has no runtime
      contract, or has a conformant auth contract. */
  lemma ServiceSilentExactly(world: World, config: Value)
    ensures (forall s :: !(Examined(config) && Earns(world, ContractOf(config), s))) <==>
      !Examined(config) || Conformant(world, ContractOf(config))
  {
    SilentExactlyWhenConformant(world, ContractOf(config));
    if Examined(config) && forall s :: !(Examined(config) && Earns(world, ContractOf(config), s)) {
      forall s
        ensures !Earns(world, ContractOf(config), s)
      {
        assert !(Examined(config) && Earns(world, ContractOf(config), s));
      }
    }
  }
}
