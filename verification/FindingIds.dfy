/** The ids of SVC-003 findings, as text: when two findings of one manifest get the
    same one. */
module FindingIds {
  import opened AuthContract
  import opened Ordering
  import opened Text

  /** A mode's name after its first dot. */
  function Suffix(name: string): string {
    if '.' !in name then name else if name[0] == '.' then name[1..] else Suffix(name[1..])
  }

  function ModeSuffix(mode: Mode): string {
    match mode
    case UserOidc => "user_oidc"
    case ServiceRs256 => "service_rs256"
    case ApiKey => "api_key"
    case BearerLegacy => "bearer_legacy"
  }

  lemma {:induction false} SuffixAfterDot(name: string, k: nat)
    requires k < |name| && name[k] == '.' && forall i :: 0 <= i < k ==> name[i] != '.'
    ensures Suffix(name) == name[k + 1..]
  {
    assert name[k] in name;
    if k > 0 {
      SuffixAfterDot(name[1..], k - 1);
      assert name[1..][k..] == name[k + 1..];
    }
  }

  lemma SuffixOfMode(x: string)
    ensures Suffix("mode." + x) == x
  {
    SuffixAfterDot("mode." + x, 4);
  }

  lemma ModeNameParts(mode: Mode)
    ensures ModeName(mode) == "mode." + ModeSuffix(mode)
  {
    var name, parts := ModeName(mode), "mode." + ModeSuffix(mode);
    assert |name| == |parts| && forall i :: 0 <= i < |name| ==> name[i] == parts[i];
  }

  /** What the code takes from an approved mode's name. */
  lemma ModeSuffixIsSuffix(mode: Mode)
    ensures Suffix(ModeName(mode)) == ModeSuffix(mode)
  {
    ModeNameParts(mode);
    SuffixOfMode(ModeSuffix(mode));
  }

  /** The signal key, cut at its dashes. */
  function Pieces(s: Signal): seq<string> {
    match s
    case MissingAuthContract => ["missing", "auth", "contract"]
    case AuthContractWrongType => ["auth", "contract", "wrong", "type"]
    case EmptyAcceptedModes => ["empty", "accepted", "modes"]
    case AcceptedModesWrongType => ["accepted", "modes", "wrong", "type"]
    case MalformedEntry(i) => ["malformed", "entry", Decimal(i)]
    case MalformedMode(i) => ["malformed", "mode", Decimal(i)]
    case UnknownMode(i) => ["unknown", "mode", Decimal(i)]
    case UnknownField(m, i) => ["unknown", "field", ModeSuffix(m), Decimal(i)]
    case MissingMetadata(m, i) => ["missing", "metadata", ModeSuffix(m), Decimal(i)]
    case AudienceInvalid(m, i) => ["audience", "invalid", ModeSuffix(m), Decimal(i)]
    case JwksUrlInvalid(m, i) => ["jwks", "url", "invalid", ModeSuffix(m), Decimal(i)]
    case WaiverNotFound(i) => ["bearer", "legacy", "waiver", "not", "found", Decimal(i)]
    case CloseDateMalformed(i) => ["bearer", "legacy", "close", "date", "malformed", Decimal(i)]
    case CloseDatePassed(i) => ["bearer", "legacy", "close", "date", "passed", Decimal(i)]
    case DuplicateMode(name) => ["duplicate", "mode"] + Split(Suffix(name), '-')
    case ImplMissing(m) => ["impl", "missing", ModeSuffix(m)]
    case ImplUndeclared(m) => ["impl", "undeclared", ModeSuffix(m)]
  }

  function Key(s: Signal): string {
    Join(Pieces(s), '-')
  }

  function FindingId(area: string, service: string, s: Signal): string {
    "F-SVC-003-" + area + (if service == "" then "" else "-" + service) + "-" + Key(s)
  }

  /** The service's part of an id, cut at its dashes. */
  function Scope(service: string): seq<string> {
    if service == "" then [] else Split(service, '-')
  }

  // ---- marks of pieces

  lemma {:induction false} DecimalDigits(n: nat)
    ensures Decimal(n) != "" && forall c :: c in Decimal(n) ==> '0' <= c <= '9'
  {
    if n >= 10 {
      DecimalDigits(n / 10);
    }
  }

  lemma {:induction false} DecimalInjective(m: nat, n: nat)
    ensures Decimal(m) == Decimal(n) ==> m == n
  {
    if Decimal(m) == Decimal(n) {
      assert Decimal(m)[|Decimal(m)| - 1] == Digit(m % 10) && Decimal(n)[|Decimal(n)| - 1] == Digit(n % 10);
      if m >= 10 && n >= 10 {
        assert Decimal(m)[..|Decimal(m)| - 1] == Decimal(m / 10) && Decimal(n)[..|Decimal(n)| - 1] == Decimal(n / 10);
        DecimalInjective(m / 10, n / 10);
      } else {
        DecimalDigits(m / 10);
        DecimalDigits(n / 10);
      }
    }
  }

  /** A piece without its text: a number, or a word by its length and first letter. */
  datatype Mark = Number | Word(length: nat, first: char)

  function MarkOf(piece: string): Mark
    requires piece != ""
  {
    if '0' <= piece[0] <= '9' then Number else Word(|piece|, piece[0])
  }

  predicate PlainPiece(piece: string, mark: Mark) {
    piece != "" && '-' !in piece && MarkOf(piece) == mark
  }

  function ModeMark(mode: Mode): Mark {
    match mode
    case UserOidc => Word(9, 'u')
    case ServiceRs256 => Word(13, 's')
    case ApiKey => Word(7, 'a')
    case BearerLegacy => Word(13, 'b')
  }

  /** The marks of a signal's pieces, but for a duplicate's free text. */
  function Marks(s: Signal): seq<Mark> {
    match s
    case MissingAuthContract => [Word(7, 'm'), Word(4, 'a'), Word(8, 'c')]
    case AuthContractWrongType => [Word(4, 'a'), Word(8, 'c'), Word(5, 'w'), Word(4, 't')]
    case EmptyAcceptedModes => [Word(5, 'e'), Word(8, 'a'), Word(5, 'm')]
    case AcceptedModesWrongType => [Word(8, 'a'), Word(5, 'm'), Word(5, 'w'), Word(4, 't')]
    case MalformedEntry(_) => [Word(9, 'm'), Word(5, 'e'), Number]
    case MalformedMode(_) => [Word(9, 'm'), Word(4, 'm'), Number]
    case UnknownMode(_) => [Word(7, 'u'), Word(4, 'm'), Number]
    case UnknownField(m, _) => [Word(7, 'u'), Word(5, 'f'), ModeMark(m), Number]
    case MissingMetadata(m, _) => [Word(7, 'm'), Word(8, 'm'), ModeMark(m), Number]
    case AudienceInvalid(m, _) => [Word(8, 'a'), Word(7, 'i'), ModeMark(m), Number]
    case JwksUrlInvalid(m, _) => [Word(4, 'j'), Word(3, 'u'), Word(7, 'i'), ModeMark(m), Number]
    case WaiverNotFound(_) => [Word(6, 'b'), Word(6, 'l'), Word(6, 'w'), Word(3, 'n'), Word(5, 'f'), Number]
    case CloseDateMalformed(_) => [Word(6, 'b'), Word(6, 'l'), Word(5, 'c'), Word(4, 'd'), Word(9, 'm'), Number]
    case CloseDatePassed(_) => [Word(6, 'b'), Word(6, 'l'), Word(5, 'c'), Word(4, 'd'), Word(6, 'p'), Number]
    case DuplicateMode(_) => [Word(9, 'd'), Word(4, 'm')]
    case ImplMissing(m) => [Word(4, 'i'), Word(7, 'm'), ModeMark(m)]
    case ImplUndeclared(m) => [Word(4, 'i'), Word(10, 'u'), ModeMark(m)]
  }

  lemma ModeMarked(mode: Mode)
    ensures PlainPiece(ModeSuffix(mode), ModeMark(mode))
  {
  }

  lemma NumberMarked(n: nat)
    ensures PlainPiece(Decimal(n), Number)
  {
    DecimalDigits(n);
    assert Decimal(n)[0] in Decimal(n);
  }

  ghost predicate Marked(s: Signal) {
    && |Pieces(s)| >= |Marks(s)| && (!s.DuplicateMode? ==> |Pieces(s)| == |Marks(s)|)
    && forall i :: 0 <= i < |Marks(s)| ==> PlainPiece(Pieces(s)[i], Marks(s)[i])
  }

  lemma ContractMarked(s: Signal)
    requires s.MissingAuthContract? || s.AuthContractWrongType? || s.EmptyAcceptedModes? || s.AcceptedModesWrongType?
             || s.DuplicateMode?
    ensures Marked(s)
  {
  }

  lemma ModesMarked(s: Signal)
    requires s.ImplMissing? || s.ImplUndeclared?
    ensures Marked(s)
  {
    ModeMarked(s.mode);
  }

  lemma EntryMarked(s: Signal)
    requires s.MalformedEntry? || s.MalformedMode? || s.UnknownMode?
    ensures Marked(s)
  {
    NumberMarked(s.index);
  }

  lemma MetadataMarked(s: Signal)
    requires s.UnknownField? || s.MissingMetadata? || s.AudienceInvalid? || s.JwksUrlInvalid?
    ensures Marked(s)
  {
    NumberMarked(s.index);
    ModeMarked(s.mode);
  }

  lemma LegacyMarked(s: Signal)
    requires s.WaiverNotFound? || s.CloseDateMalformed? || s.CloseDatePassed?
    ensures Marked(s)
  {
    NumberMarked(s.index);
  }

  lemma AllMarked(s: Signal)
    ensures Marked(s)
  {
    match s
    case MissingAuthContract => ContractMarked(s);
    case AuthContractWrongType => ContractMarked(s);
    case EmptyAcceptedModes => ContractMarked(s);
    case AcceptedModesWrongType => ContractMarked(s);
    case DuplicateMode(_) => ContractMarked(s);
    case ImplMissing(_) => ModesMarked(s);
    case ImplUndeclared(_) => ModesMarked(s);
    case MalformedEntry(_) => EntryMarked(s);
    case MalformedMode(_) => EntryMarked(s);
    case UnknownMode(_) => EntryMarked(s);
    case UnknownField(_, _) => MetadataMarked(s);
    case MissingMetadata(_, _) => MetadataMarked(s);
    case AudienceInvalid(_, _) => MetadataMarked(s);
    case JwksUrlInvalid(_, _) => MetadataMarked(s);
    case WaiverNotFound(_) => LegacyMarked(s);
    case CloseDateMalformed(_) => LegacyMarked(s);
    case CloseDatePassed(_) => LegacyMarked(s);
  }

  /** No key but a duplicate's can end in another key: no inner word of one has the
      mark of the first word of another that is just as long as what follows. */
  lemma NoMarkInside(s: Signal, t: Signal, j: nat)
    requires !s.DuplicateMode? && 0 < j < |Marks(s)|
    requires t.DuplicateMode? || |Marks(s)| - j == |Marks(t)|
    ensures Marks(s)[j] != Marks(t)[0]
  {
  }

  predicate HasIndex(s: Signal) {
    && !s.MissingAuthContract? && !s.AuthContractWrongType? && !s.EmptyAcceptedModes? && !s.AcceptedModesWrongType?
    && !s.DuplicateMode? && !s.ImplMissing? && !s.ImplUndeclared?
  }

  function AtZero(s: Signal): Signal {
    if HasIndex(s) then s.(index := 0) else s
  }

  lemma MarksDecide(s: Signal, t: Signal)
    requires !s.DuplicateMode? && !t.DuplicateMode? && Marks(s) == Marks(t)
    ensures AtZero(s) == AtZero(t)
  {
  }

  lemma IndexLast(s: Signal)
    requires HasIndex(s)
    ensures Pieces(s)[|Pieces(s)| - 1] == Decimal(s.index)
  {
  }

  /** Apart from duplicates, a signal is determined by its key. */
  lemma PiecesDecide(s: Signal, t: Signal)
    requires !s.DuplicateMode? && !t.DuplicateMode? && Pieces(s) == Pieces(t)
    ensures s == t
  {
    AllMarked(s);
    AllMarked(t);
    assert Marks(s) == Marks(t) by {
      forall i | 0 <= i < |Marks(s)|
        ensures Marks(s)[i] == Marks(t)[i]
      {
        assert PlainPiece(Pieces(s)[i], Marks(s)[i]) && PlainPiece(Pieces(t)[i], Marks(t)[i]);
      }
    }
    MarksDecide(s, t);
    if HasIndex(s) {
      IndexLast(s);
      IndexLast(t);
      DecimalInjective(s.index, t.index);
    }
  }

  /** No key but a duplicate's ends in another key behind a dash. */
  lemma NothingInside(s: Signal, t: Signal, j: nat)
    requires !s.DuplicateMode? && 0 < j < |Pieces(s)|
    ensures Pieces(s)[j..] != Pieces(t)
  {
    AllMarked(s);
    AllMarked(t);
    if Pieces(s)[j..] == Pieces(t) {
      assert Pieces(s)[j] == Pieces(t)[0];
      assert PlainPiece(Pieces(s)[j], Marks(s)[j]) && PlainPiece(Pieces(t)[0], Marks(t)[0]);
      NoMarkInside(s, t, j);
    }
  }

  /** And a duplicate's does not before its mode's name. */
  lemma NotAtMode(s: Signal, t: Signal)
    requires s.DuplicateMode?
    ensures Pieces(s)[1] != Pieces(t)[0]
    ensures !t.DuplicateMode? ==> Pieces(s)[0] != Pieces(t)[0]
  {
    AllMarked(t);
    assert PlainPiece(Pieces(t)[0], Marks(t)[0]);
    assert MarkOf("mode") == Word(4, 'm') && MarkOf("duplicate") == Word(9, 'd');
  }

  // ---- ids as pieces

  function Prefix(area: string): string {
    "F-SVC-003-" + area + "-"
  }

  lemma PiecesPlain(s: Signal)
    ensures forall p :: p in Pieces(s) ==> '-' !in p
  {
    AllMarked(s);
    if s.DuplicateMode? {
      assert Pieces(s)[0] == "duplicate" && Pieces(s)[1] == "mode";
      PlainInFront(Pieces(s)[0], Pieces(s)[1], Split(Suffix(s.name), '-'));
    } else {
      forall i | 0 <= i < |Pieces(s)|
        ensures '-' !in Pieces(s)[i]
      {
        assert PlainPiece(Pieces(s)[i], Marks(s)[i]);
      }
    }
  }

  lemma PlainInFront(a: string, b: string, rest: seq<string>)
    requires '-' !in a && '-' !in b && forall i :: 0 <= i < |rest| ==> '-' !in rest[i]
    ensures forall p :: p in [a, b] + rest ==> '-' !in p
  {
  }

  lemma Regroup<T>(a: seq<T>, b: seq<T>, c: seq<T>, d: seq<T>)
    ensures a + (b + c) + d == (a + b) + (c + d)
  {
  }

  lemma IdParts(area: string, service: string, s: Signal)
    ensures FindingId(area, service, s) == Prefix(area) + Join(Scope(service) + Pieces(s), '-')
  {
    if service == "" {
      assert Scope(service) + Pieces(s) == Pieces(s);
    } else {
      JoinConcat(Scope(service), Pieces(s), '-');
      JoinSplit(service, '-');
      Regroup("F-SVC-003-" + area, "-", service, "-" + Key(s));
      SameText(area, service, Key(s));
    }
  }

  lemma SameText(area: string, service: string, key: string)
    ensures "F-SVC-003-" + area + ("-" + service) + "-" + key
         == "F-SVC-003-" + area + "-" + (service + ['-'] + key)
  {
  }

  lemma PartsPlain(service: string, s: Signal)
    ensures forall p :: p in Scope(service) + Pieces(s) ==> '-' !in p
    ensures Split(Join(Scope(service) + Pieces(s), '-'), '-') == Scope(service) + Pieces(s)
  {
    PiecesPlain(s);
    SplitJoin(Scope(service) + Pieces(s), '-');
  }

  /** Two ids are the same exactly when their parts between dashes are. */
  lemma SameIdExactly(area: string, n: string, s: Signal, n': string, s': Signal)
    ensures FindingId(area, n, s) == FindingId(area, n', s') <==> Scope(n) + Pieces(s) == Scope(n') + Pieces(s')
  {
    IdParts(area, n, s);
    IdParts(area, n', s');
    PartsPlain(n, s);
    PartsPlain(n', s');
    var x, x' := Join(Scope(n) + Pieces(s), '-'), Join(Scope(n') + Pieces(s'), '-');
    if FindingId(area, n, s) == FindingId(area, n', s') {
      assert x == (Prefix(area) + x)[|Prefix(area)|..] && x' == (Prefix(area) + x')[|Prefix(area)|..];
    }
  }

  lemma ScopeInjective(n: string, n': string)
    ensures Scope(n) == Scope(n') ==> n == n'
  {
    SplitInjective(n, n', '-');
  }

  // ---- when two ids clash

  /** The mode a service declares twice is named so that its key runs on into the
      key of a finding of the service named after it. */
  ghost predicate Spills(n: string, s: Signal, n': string, s': Signal) {
    s.DuplicateMode? && exists y: seq<string> :: Overruns(n, s.name, n', s', y)
  }

  ghost predicate Overruns(n: string, name: string, n': string, s': Signal, y: seq<string>) {
    Split(Suffix(name), '-') == y + Pieces(s') && Scope(n') == Scope(n) + ["duplicate", "mode"] + y
  }

  predicate SharesSuffix(n: string, s: Signal, n': string, s': Signal) {
    n == n' && s.DuplicateMode? && s'.DuplicateMode? && Suffix(s.name) == Suffix(s'.name)
  }

  /** Two ways to cut the same list. */
  lemma CutLater<T>(a: seq<T>, p: seq<T>, a': seq<T>, p': seq<T>)
    requires a + p == a' + p' && |a| <= |a'|
    ensures |a'| - |a| <= |p| && p[|a'| - |a|..] == p' && a' == a + p[..|a'| - |a|]
  {
    var all := a + p;
    assert all[|a'|..] == p[|a'| - |a|..] && (a' + p')[|a'|..] == p';
    assert all[..|a'|] == a + p[..|a'| - |a|] && (a' + p')[..|a'|] == a';
  }

  lemma CutBehind<T>(x: seq<T>, z: seq<T>, d: nat)
    requires |x| <= d <= |x + z|
    ensures (x + z)[d..] == z[d - |x|..] && (x + z)[..d] == x + z[..d - |x|]
  {
  }

  lemma SpillsClash(n: string, s: Signal, n': string, s': Signal)
    requires Spills(n, s, n', s')
    ensures Scope(n) + Pieces(s) == Scope(n') + Pieces(s') && n != n'
  {
    var y: seq<string> :| Overruns(n, s.name, n', s', y);
    var head := ["duplicate", "mode"];
    assert Pieces(s) == head + (y + Pieces(s'));
    Extend(Scope(n), head, y, Pieces(s'));
  }

  lemma Extend<T>(a: seq<T>, head: seq<T>, y: seq<T>, p: seq<T>)
    requires |head| > 0
    ensures a + (head + (y + p)) == (a + head + y) + p && a + head + y != a
  {
    assert |a + head + y| > |a|;
  }

  lemma SameScopeClash(n: string, s: Signal, n': string, s': Signal)
    requires Scope(n) + Pieces(s) == Scope(n') + Pieces(s') && |Scope(n)| == |Scope(n')| && (n, s) != (n', s')
    ensures SharesSuffix(n, s, n', s')
  {
    CutLater(Scope(n), Pieces(s), Scope(n'), Pieces(s'));
    assert Scope(n) + [] == Scope(n);
    ScopeInjective(n, n');
    if s.DuplicateMode? && s'.DuplicateMode? {
      assert Pieces(s)[2..] == Split(Suffix(s.name), '-') && Pieces(s')[2..] == Split(Suffix(s'.name), '-');
      SplitInjective(Suffix(s.name), Suffix(s'.name), '-');
    } else if s.DuplicateMode? {
      NotAtMode(s, s');
    } else if s'.DuplicateMode? {
      NotAtMode(s', s);
    } else {
      PiecesDecide(s, s');
    }
  }

  lemma CutPastMode(s: Signal, s': Signal, d: nat)
    requires s.DuplicateMode? && 0 < d <= |Pieces(s)| && Pieces(s)[d..] == Pieces(s')
    ensures d >= 2
  {
    AllMarked(s');
    assert Pieces(s)[d] == Pieces(s')[0];
    NotAtMode(s, s');
  }

  lemma LongerScopeClash(n: string, s: Signal, n': string, s': Signal)
    requires Scope(n) + Pieces(s) == Scope(n') + Pieces(s') && |Scope(n)| < |Scope(n')|
    ensures Spills(n, s, n', s')
  {
    var d := |Scope(n')| - |Scope(n)|;
    CutLater(Scope(n), Pieces(s), Scope(n'), Pieces(s'));
    if s.DuplicateMode? {
      CutPastMode(s, s', d);
      DuplicateCut(s, d);
      SpillsFrom(n, s.name, n', s', Split(Suffix(s.name), '-'), d - 2);
    } else {
      NothingInside(s, s', d);
    }
  }

  lemma DuplicateCut(s: Signal, d: nat)
    requires s.DuplicateMode? && 2 <= d <= |Pieces(s)|
    ensures Pieces(s)[d..] == Split(Suffix(s.name), '-')[d - 2..]
    ensures Pieces(s)[..d] == ["duplicate", "mode"] + Split(Suffix(s.name), '-')[..d - 2]
  {
    CutBehind(["duplicate", "mode"], Split(Suffix(s.name), '-'), d);
  }

  lemma SpillsFrom(n: string, name: string, n': string, s': Signal, words: seq<string>, d: nat)
    requires words == Split(Suffix(name), '-') && d <= |words| && words[d..] == Pieces(s')
    requires Scope(n') == Scope(n) + (["duplicate", "mode"] + words[..d])
    ensures Overruns(n, name, n', s', words[..d])
  {
    Assoc(Scope(n), ["duplicate", "mode"], words[..d]);
    assert words == words[..d] + words[d..];
  }

  lemma Assoc<T>(a: seq<T>, b: seq<T>, c: seq<T>)
    ensures a + (b + c) == a + b + c
  {
  }

  /** Two findings get the same id exactly when one service declares two modes twice
      whose names end alike, or one spills into the other. */
  lemma ClashExactly(area: string, n: string, s: Signal, n': string, s': Signal)
    requires (n, s) != (n', s')
    ensures FindingId(area, n, s) == FindingId(area, n', s') <==>
              SharesSuffix(n, s, n', s') || Spills(n, s, n', s') || Spills(n', s', n, s)
  {
    SameIdExactly(area, n, s, n', s');
    if FindingId(area, n, s) == FindingId(area, n', s') {
      if |Scope(n)| == |Scope(n')| {
        SameScopeClash(n, s, n', s');
      } else if |Scope(n)| < |Scope(n')| {
        LongerScopeClash(n, s, n', s');
      } else {
        LongerScopeClash(n', s', n, s);
      }
    }
    if Spills(n, s, n', s') {
      SpillsClash(n, s, n', s');
    }
    if Spills(n', s', n, s) {
      SpillsClash(n', s', n, s);
    }
  }

  // ---- a whole manifest

  ghost predicate Reported(world: World, services: map<string, Value>, n: string, s: Signal) {
    n in services && Examined(services[n]) && Earns(world, ContractOf(services[n]), s)
  }

  ghost predicate IdsDiffer(world: World, area: string, services: map<string, Value>) {
    forall n, s, n', s' ::
      Reported(world, services, n, s) && Reported(world, services, n', s') && (n, s) != (n', s') ==>
      FindingId(area, n, s) != FindingId(area, n', s')
  }

  /** No two modes one service declares twice end alike. */
  ghost predicate SuffixesDiffer(world: World, services: map<string, Value>) {
    forall n, s, s' :: Reported(world, services, n, s) && Reported(world, services, n, s') && s != s' ==>
      !SharesSuffix(n, s, n, s')
  }

  ghost predicate NothingSpills(world: World, services: map<string, Value>) {
    forall n, s, n', s' ::
      Reported(world, services, n, s) && Reported(world, services, n', s') ==> !Spills(n, s, n', s')
  }

  /** Over every manifest, the ids of all SVC-003 findings differ exactly when no two
      modes a service declares twice end alike and none spills into another service. */
  lemma IdsDifferExactly(world: World, area: string, services: map<string, Value>)
    ensures IdsDiffer(world, area, services) <==> SuffixesDiffer(world, services) && NothingSpills(world, services)
  {
    if IdsDiffer(world, area, services) {
      forall n, s, s' | Reported(world, services, n, s) && Reported(world, services, n, s') && s != s'
        ensures !SharesSuffix(n, s, n, s')
      {
        ClashExactly(area, n, s, n, s');
      }
      forall n, s, n', s' | Reported(world, services, n, s) && Reported(world, services, n', s')
        ensures !Spills(n, s, n', s')
      {
        if Spills(n, s, n', s') {
          SpillsClash(n, s, n', s');
          ClashExactly(area, n, s, n', s');
        }
      }
    }
    if SuffixesDiffer(world, services) && NothingSpills(world, services) {
      forall n, s, n', s' | Reported(world, services, n, s) && Reported(world, services, n', s') && (n, s) != (n', s')
        ensures FindingId(area, n, s) != FindingId(area, n', s')
      {
        ClashExactly(area, n, s, n', s');
      }
    }
  }

  /** A mode whose name has fewer than two dashes after its first dot spills nowhere. */
  lemma ShortNamesDoNotSpill(n: string, s: Signal, n': string, s': Signal)
    requires s.DuplicateMode? ==> |Split(Suffix(s.name), '-')| < 3
    ensures !Spills(n, s, n', s')
  {
    forall y: seq<string>
      ensures !(s.DuplicateMode? && Overruns(n, s.name, n', s', y))
    {
      AllMarked(s');
    }
  }

  lemma ApprovedIsShort(mode: Mode)
    ensures |Split(Suffix(ModeName(mode)), '-')| == 1
  {
    ModeSuffixIsSuffix(mode);
    ModeMarked(mode);
    SplitWhole(ModeSuffix(mode), '-');
  }

  lemma ApprovedSuffixesDiffer(m: Mode, m': Mode)
    ensures Suffix(ModeName(m)) == Suffix(ModeName(m')) ==> m == m'
  {
    ModeSuffixIsSuffix(m);
    ModeSuffixIsSuffix(m');
    ModeMarked(m);
    ModeMarked(m');
  }

  ghost predicate OnlyApprovedTwice(world: World, services: map<string, Value>) {
    forall n, name :: Reported(world, services, n, DuplicateMode(name)) ==> exists m :: name == ModeName(m)
  }

  /** So as long as only approved modes are declared twice, no two findings of a
      manifest share an id, whatever its services are called. */
  lemma ApprovedNeverClash(world: World, area: string, services: map<string, Value>)
    requires OnlyApprovedTwice(world, services)
    ensures IdsDiffer(world, area, services)
  {
    forall n, s, s' | Reported(world, services, n, s) && Reported(world, services, n, s') && s != s'
      ensures !SharesSuffix(n, s, n, s')
    {
      if s.DuplicateMode? && s'.DuplicateMode? {
        var m :| s.name == ModeName(m);
        var m' :| s'.name == ModeName(m');
        ApprovedSuffixesDiffer(m, m');
      }
    }
    forall n, s, n', s' | Reported(world, services, n, s) && Reported(world, services, n', s')
      ensures !Spills(n, s, n', s')
    {
      if s.DuplicateMode? {
        var m :| s.name == ModeName(m);
        ApprovedIsShort(m);
      }
      ShortNamesDoNotSpill(n, s, n', s');
    }
    IdsDifferExactly(world, area, services);
  }

  // ---- manifests on which they clash

  function ServiceWith(contract: Value): Value {
    Map(map["local" := Map(map["runtime_contract" := Map(map["auth_contract" := contract])])])
  }

  function DeclaringTwice(name: string): seq<Value> {
    [Map(map["mode" := Text(name)]), Map(map["mode" := Text(name)])]
  }

  function ContractWith(entries: seq<Value>): Value {
    Map(map["accepted_modes" := List(entries)])
  }

  lemma ServiceExamined(contract: Value)
    ensures Examined(ServiceWith(contract)) && ContractOf(ServiceWith(contract)) == contract
  {
    var config := ServiceWith(contract);
    assert Field(config, "local") == Map(map["runtime_contract" := Map(map["auth_contract" := contract])]);
    assert "status" !in Field(config, "local").fields by {
      assert |"status"| != |"runtime_contract"|;
    }
  }

  lemma TwiceEarned(world: World, entries: seq<Value>, name: string, i: nat, j: nat)
    requires i < j < |entries| && StringMode(entries[i]) == Some(name) && StringMode(entries[j]) == Some(name)
    ensures Earns(world, ContractWith(entries), DuplicateMode(name))
  {
    assert AcceptedModes(ContractWith(entries)) == List(entries);
    assert DeclaredTwice(entries, name);
  }

  lemma DuplicateKey(name: string)
    ensures Key(DuplicateMode(name)) == "duplicate-mode-" + Suffix(name)
  {
    var head := ["duplicate", "mode"];
    JoinConcat(head, Split(Suffix(name), '-'), '-');
    JoinSplit(Suffix(name), '-');
    assert head[1..] == ["mode"];
    assert Join(head, '-') == "duplicate" + ['-'] + "mode";
  }

  lemma ReportedIn(world: World, services: map<string, Value>, n: string, contract: Value, s: Signal)
    requires n in services && services[n] == ServiceWith(contract) && Earns(world, contract, s)
    ensures Reported(world, services, n, s)
  {
    ServiceExamined(contract);
  }

  lemma FirstTwiceEarned(world: World, name: string, more: seq<Value>)
    ensures Earns(world, ContractWith(DeclaringTwice(name) + more), DuplicateMode(name))
  {
    var entries := DeclaringTwice(name) + more;
    assert StringMode(entries[0]) == StringMode(entries[1]) == Some(name);
    TwiceEarned(world, entries, name, 0, 1);
  }

  lemma SecondTwiceEarned(world: World, name: string, name': string)
    ensures Earns(world, ContractWith(DeclaringTwice(name) + DeclaringTwice(name')), DuplicateMode(name'))
  {
    var entries := DeclaringTwice(name) + DeclaringTwice(name');
    assert StringMode(entries[2]) == StringMode(entries[3]) == Some(name');
    TwiceEarned(world, entries, name', 2, 3);
  }

  /** Within one service: two modes of the same suffix, each declared twice. */
  lemma SuffixClashes(world: World, area: string, n: string, name: string, name': string)
    requires name != name' && Suffix(name) == Suffix(name')
    ensures
      var services := map[n := ServiceWith(ContractWith(DeclaringTwice(name) + DeclaringTwice(name')))];
      var s, s' := DuplicateMode(name), DuplicateMode(name');
      && Reported(world, services, n, s) && Reported(world, services, n, s') && s != s'
      && FindingId(area, n, s) == FindingId(area, n, s')
  {
    var contract := ContractWith(DeclaringTwice(name) + DeclaringTwice(name'));
    FirstTwiceEarned(world, name, DeclaringTwice(name'));
    SecondTwiceEarned(world, name, name');
    ReportedIn(world, map[n := ServiceWith(contract)], n, contract, DuplicateMode(name));
    ReportedIn(world, map[n := ServiceWith(contract)], n, contract, DuplicateMode(name'));
  }

  /** As with `a.x` and `b.x`. */
  lemma UnknownModesCollide(world: World, area: string)
    ensures
      var services := map["s" := ServiceWith(ContractWith(DeclaringTwice("a.x") + DeclaringTwice("b.x")))];
      && Reported(world, services, "s", DuplicateMode("a.x")) && Reported(world, services, "s", DuplicateMode("b.x"))
      && DuplicateMode("a.x") != DuplicateMode("b.x")
      && FindingId(area, "s", DuplicateMode("a.x")) == FindingId(area, "s", DuplicateMode("b.x"))
  {
    SuffixAfterDot("a.x", 1);
    SuffixAfterDot("b.x", 1);
    assert "a.x"[2..] == "x" && "b.x"[2..] == "x";
    assert "a.x"[0] != "b.x"[0];
    SuffixClashes(world, area, "s", "a.x", "b.x");
  }

  lemma SameTextAcross(head: string, n: string, middle: string, x: string, key: string)
    ensures head + ("-" + n) + "-" + (middle + (x + "-" + key)) == head + ("-" + (n + "-" + middle + x)) + "-" + key
  {
  }

  lemma SpillIds(area: string, n: string, x: string)
    requires n != ""
    ensures
      var name, n' := "q." + (x + "-" + Key(MissingAuthContract)), n + "-" + "duplicate-mode-" + x;
      FindingId(area, n, DuplicateMode(name)) == FindingId(area, n', MissingAuthContract)
  {
    var key := Key(MissingAuthContract);
    var name := "q." + (x + "-" + key);
    SuffixAfterDot(name, 1);
    assert name[2..] == x + "-" + key;
    DuplicateKey(name);
    SameTextAcross("F-SVC-003-" + area, n, "duplicate-mode-", x, key);
  }

  /** Across two: a service declares a mode `q.<x>-missing-auth-contract` twice, and
      the service named after it with `-duplicate-mode-<x>` has no auth contract. */
  lemma SpillClashes(world: World, area: string, n: string, x: string)
    requires n != ""
    ensures
      var name, n' := "q." + (x + "-" + Key(MissingAuthContract)), n + "-" + "duplicate-mode-" + x;
      var services := map[n := ServiceWith(ContractWith(DeclaringTwice(name))), n' := ServiceWith(Null)];
      && Reported(world, services, n, DuplicateMode(name)) && Reported(world, services, n', MissingAuthContract)
      && n != n' && FindingId(area, n, DuplicateMode(name)) == FindingId(area, n', MissingAuthContract)
  {
    var name, n' := "q." + (x + "-" + Key(MissingAuthContract)), n + "-" + "duplicate-mode-" + x;
    assert |n'| > |n|;
    BothReported(world, n, n', name);
    SpillIds(area, n, x);
  }

  lemma BothReported(world: World, n: string, n': string, name: string)
    requires n != n'
    ensures
      var services := map[n := ServiceWith(ContractWith(DeclaringTwice(name))), n' := ServiceWith(Null)];
      Reported(world, services, n, DuplicateMode(name)) && Reported(world, services, n', MissingAuthContract)
  {
    var contract := ContractWith(DeclaringTwice(name));
    var services := map[n := ServiceWith(contract), n' := ServiceWith(Null)];
    FirstTwiceEarned(world, name, []);
    assert DeclaringTwice(name) + [] == DeclaringTwice(name);
    ReportedIn(world, services, n, contract, DuplicateMode(name));
    ReportedIn(world, services, n', Null, MissingAuthContract);
  }
}
