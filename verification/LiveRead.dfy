/**
 The live read of a passport and its verification. Every answer of the chip and of the
 transport is chosen by the environment: the holder is told what went wrong from the
 transport-failure flag alone, and these are the proofs that the flag is kept right.
 */
module LiveRead {
  import opened Wrappers
  import opened ByteStrings
  import opened Hashes
  import PassiveParse
  import PassiveAuth
  import PassiveTrust
  import ActiveAuth

  datatype IdentityError = Nfc | Access | Unreadable | Anchor | NotAuthentic

  datatype Session = Auto | Pace | Bac

  datatype Options = Options(session: Session, readPortrait: bool, activeAuthentication: bool, retainFiles: bool)

  datatype Files = Files(sod: Bytes, dg1: Bytes, dg2: Option<Bytes>, dg15: Option<Bytes>)

  /** What the verdict takes from the MRZ. */
  datatype Mrz = Mrz(dateOfExpiry: int, documentCode: string, issuingState: string)

  datatype Warning = GroupsUnread(groups: seq<Byte>) | NoImage | ActiveAuthenticationFailed | Dg15NotCovered | Expired

  datatype Authenticity = Authenticity(
    dataAuthentic: bool, issuerTrusted: bool, holderBound: Option<bool>, notExpired: bool, warnings: seq<Warning>)
  {
    predicate IsTrustworthy() { dataAuthentic && issuerTrusted && notExpired }

    predicate IsPresentAndTrustworthy() { IsTrustworthy() && holderBound == Some(true) }
  }

  datatype Identity = Identity(
    mrz: Mrz, portrait: Option<Bytes>, authenticity: Authenticity,
    verifiedDataGroups: seq<Byte>, signedDataGroups: seq<Byte>)

  datatype PassportRead = PassportRead(identity: Identity, files: Option<Files>)

  /** The hash, the curves, the file parsers and the clock: code this model does not contain. */
  datatype World = World(
    digest: Digest, curves: PassiveParse.EllipticCurves, p256: ActiveAuth.P256,
    parseDg1: Bytes -> Option<Mrz>, image: Bytes -> Option<Bytes>,
    parseDg15: Bytes -> Option<ActiveAuth.AAPublicKey>, today: int)

  // ------------------------------------------------------------- verifying the files

  /** Every element read, or nothing. */
  function ReadAll<A, B>(read: A -> Option<B>, xs: seq<A>): Option<seq<B>> {
    if xs == [] then Some([])
    else
      var first :- read(xs[0]);
      var others :- ReadAll(read, xs[1..]);
      Some([first] + others)
  }

  function AnchorReader(w: World): Bytes -> Option<PassiveAuth.TrustAnchor> {
    (der: Bytes) => match PassiveAuth.AnchorFromCertificate(w.curves, der) { case Ok(a) => Some(a) case Err(_) => None }
  }

  function TrustAnchors(w: World, ders: seq<Bytes>): Result<seq<PassiveAuth.TrustAnchor>, IdentityError> {
    match ReadAll(AnchorReader(w), ders)
    case None => Err(Anchor)
    case Some(anchors) => Ok(anchors)
  }

  function Group(number: Byte, file: Option<Bytes>): seq<PassiveAuth.DataGroup> {
    if file.Some? then [PassiveAuth.DataGroup(number, file.value)] else []
  }

  /** The data groups that were read, and nothing else. */
  function Groups(files: Files): seq<PassiveAuth.DataGroup> {
    Group(1, Some(files.dg1)) + Group(2, files.dg2) + Group(15, files.dg15)
  }

  function HolderBinding(activeAuthentication: Option<bool>, dg15Authenticated: bool): Option<bool> {
    if activeAuthentication == Some(true) && !dg15Authenticated then None else activeAuthentication
  }

  function Unread(signed: seq<Byte>, verified: seq<Byte>): seq<Byte> {
    if signed == [] then []
    else (if signed[0] in verified then [] else [signed[0]]) + Unread(signed[1..], verified)
  }

  function Warn(warnings: seq<Warning>, condition: bool, warning: Warning): seq<Warning> {
    if condition then warnings + [warning] else warnings
  }

  function Warnings(v: PassiveAuth.Verdict, files: Files, portrait: Option<Bytes>, holderBound: Option<bool>,
                    notExpired: bool): seq<Warning> {
    var unread := Unread(v.sodGroups, v.verifiedGroups);
    var w1 := Warn([], !v.CoversAllGroups() && unread != [], GroupsUnread(unread));
    var w2 := Warn(w1, files.dg2.Some? && portrait.None?, NoImage);
    var w3 := Warn(w2, holderBound == Some(false), ActiveAuthenticationFailed);
    var w4 := Warn(w3, files.dg15.Some? && 15 !in v.verifiedGroups, Dg15NotCovered);
    Warn(w4, !notExpired, Expired)
  }

  function Portrait(w: World, files: Files): Option<Bytes> {
    match files.dg2
    case None => None
    case Some(bytes) => w.image(bytes)
  }

  function Verdict(w: World, files: Files, anchors: seq<Bytes>): Result<PassiveAuth.Verdict, IdentityError> {
    var trusted :- TrustAnchors(w, anchors);
    match PassiveAuth.Verify(w.digest, w.curves, files.sod, Groups(files), trusted)
    case Err(_) => Err(NotAuthentic)
    case Ok(verdict) => Ok(verdict)
  }

  function VerifyFiles(w: World, files: Files, anchors: seq<Bytes>, activeAuthentication: Option<bool>)
    : Result<Identity, IdentityError>
  {
    var verdict :- Verdict(w, files, anchors);
    var holderBound := HolderBinding(activeAuthentication, 15 in verdict.verifiedGroups);
    match w.parseDg1(files.dg1)
    case None => Err(Unreadable)
    case Some(mrz) =>
      var portrait := Portrait(w, files);
      var notExpired := mrz.dateOfExpiry >= w.today;
      Ok(Identity(
        mrz, portrait,
        Authenticity(true, verdict.chain.Trusted?, holderBound, notExpired,
                     Warnings(verdict, files, portrait, holderBound, notExpired)),
        verdict.verifiedGroups, verdict.sodGroups))
  }

  method CollectUnread(signed: seq<Byte>, verified: seq<Byte>) returns (unread: seq<Byte>)
    ensures unread == Unread(signed, verified)
  {
    unread := [];
    assert signed[0..] == signed;
    for i := 0 to |signed|
      invariant unread + Unread(signed[i..], verified) == Unread(signed, verified)
    {
      assert signed[i..][1..] == signed[i + 1..];
      if signed[i] !in verified { unread := unread + [signed[i]]; }
    }
  }

  /** `authenticity` as it runs: the warnings are pushed one by one. */
  method CollectWarnings(v: PassiveAuth.Verdict, files: Files, portrait: Option<Bytes>, holderBound: Option<bool>,
                         notExpired: bool) returns (warnings: seq<Warning>)
    ensures warnings == Warnings(v, files, portrait, holderBound, notExpired)
  {
    warnings := [];
    if !v.CoversAllGroups() {
      var unread := CollectUnread(v.sodGroups, v.verifiedGroups);
      if unread != [] { warnings := warnings + [GroupsUnread(unread)]; }
    }
    if files.dg2.Some? && portrait.None? { warnings := warnings + [NoImage]; }
    if holderBound == Some(false) { warnings := warnings + [ActiveAuthenticationFailed]; }
    if files.dg15.Some? && 15 !in v.verifiedGroups { warnings := warnings + [Dg15NotCovered]; }
    if !notExpired { warnings := warnings + [Expired]; }
  }

  /** `verify_files` as it runs. */
  method CheckFiles(w: World, files: Files, anchors: seq<Bytes>, activeAuthentication: Option<bool>)
    returns (r: Result<Identity, IdentityError>)
    ensures r == VerifyFiles(w, files, anchors, activeAuthentication)
  {
    var trusted := TrustAnchors(w, anchors);
    if trusted.Err? { return Err(trusted.error); }
    var groups := [PassiveAuth.DataGroup(1, files.dg1)];
    if files.dg2.Some? { groups := groups + [PassiveAuth.DataGroup(2, files.dg2.value)]; }
    if files.dg15.Some? { groups := groups + [PassiveAuth.DataGroup(15, files.dg15.value)]; }
    assert groups == Groups(files);
    var passive := PassiveAuth.RunVerify(w.digest, w.curves, files.sod, groups, trusted.value);
    if passive.Err? { return Err(NotAuthentic); }
    var v := passive.value;
    var holderBound := HolderBinding(activeAuthentication, 15 in v.verifiedGroups);
    var mrz := w.parseDg1(files.dg1);
    if mrz.None? { return Err(Unreadable); }
    var portrait := Portrait(w, files);
    var notExpired := mrz.value.dateOfExpiry >= w.today;
    var warnings := CollectWarnings(v, files, portrait, holderBound, notExpired);
    r := Ok(Identity(mrz.value, portrait, Authenticity(true, v.chain.Trusted?, holderBound, notExpired, warnings),
                     v.verifiedGroups, v.sodGroups));
  }

  // --------------------------------------------------------------- the live channel

  /** One operation of the handle: which of its transceives were answered, and what it returned. */
  datatype Attempt<+T> = Attempt(answers: seq<bool>, result: Option<T>) {
    predicate Lost() { false in answers }
  }

  datatype Phase = CardAccess | PaceSession | BacSession | Dg1 | Dg2 | Dg15 | Sod | Challenge

  datatype Event = Event(phase: Phase, answered: bool)

  function Events(phase: Phase, answers: seq<bool>): seq<Event> {
    seq(|answers|, i requires 0 <= i < |answers| => Event(phase, answers[i]))
  }

  /** The flag every session error is read from, with a record of every transceive. */
  class Channel {
    var transportFailed: bool
    ghost var log: seq<Event>

    constructor ()
      ensures !transportFailed && log == []
    {
      transportFailed, log := false, [];
    }

    method Transceive(ghost phase: Phase, answered: bool) returns (ok: bool)
      modifies this
      ensures ok == answered
      ensures transportFailed == (old(transportFailed) || !answered)
      ensures log == old(log) + [Event(phase, answered)]
    {
      if !answered { transportFailed := true; }
      log := log + [Event(phase, answered)];
      ok := answered;
    }

    /** An operation of the handle over this channel. */
    method Perform<T>(ghost phase: Phase, a: Attempt<T>) returns (r: Option<T>)
      modifies this
      ensures r == a.result
      ensures transportFailed == (old(transportFailed) || a.Lost())
      ensures log == old(log) + Events(phase, a.answers)
    {
      for i := 0 to |a.answers|
        invariant transportFailed == (old(transportFailed) || false in a.answers[..i])
        invariant log == old(log) + Events(phase, a.answers[..i])
      {
        assert a.answers[..i + 1] == a.answers[..i] + [a.answers[i]];
        assert Events(phase, a.answers[..i + 1]) == Events(phase, a.answers[..i]) + [Event(phase, a.answers[i])];
        var _ := Transceive(phase, a.answers[i]);
      }
      assert a.answers[..|a.answers|] == a.answers;
      r := a.result;
    }
  }

  /**
   A chip and its transport. Each operation happens at most once in a read and nothing a
   read sends depends on chance but the challenge, so a table of outcomes is every
   adversary, however it adapts.
   */
  datatype Chip = Chip(
    cardAccess: Attempt<Bytes>, pace: Attempt<Unit>, bac: Attempt<Unit>,
    dg1: Attempt<Bytes>, dg2: Attempt<Bytes>, dg15: Attempt<Bytes>, sod: Attempt<Bytes>,
    respond: Bytes -> Attempt<Bytes>)

  /** A read that also parses what it read. */
  function Parsing<T>(a: Attempt<Bytes>, parse: Bytes -> Option<T>): Attempt<Bytes> {
    if a.result.Some? && parse(a.result.value).None? then Attempt(a.answers, None) else a
  }

  // ---------------------------------------------- the reference: no flag, only outcomes

  /** What a part of the read sent and how it ended. */
  datatype Run<+T> = Run(log: seq<Event>, result: Result<T, IdentityError>)

  function Mandatory<T>(phase: Phase, a: Attempt<T>, refused: IdentityError): Run<T> {
    Run(Events(phase, a.answers),
        if a.result.Some? then Ok(a.result.value) else if a.Lost() then Err(Nfc) else Err(refused))
  }

  function Optional<T>(wanted: bool, phase: Phase, a: Attempt<T>): Run<Option<T>> {
    if !wanted then Run([], Ok(None))
    else Run(Events(phase, a.answers), if a.result.None? && a.Lost() then Err(Nfc) else Ok(a.result))
  }

  function BacRun(chip: Chip, keyUsable: bool -> bool): Run<Unit> {
    if !keyUsable(false) then Run([], Err(Unreadable)) else Mandatory(BacSession, chip.bac, Access)
  }

  /** PACE first, and BAC if it fails; a transport failure in either is what the holder hears of. */
  function FallbackRun(chip: Chip, keyUsable: bool -> bool): Run<Unit> {
    var sent := Events(PaceSession, chip.pace.answers);
    if chip.pace.result.Some? then Run(sent, Ok(chip.pace.result.value))
    else
      var bac := BacRun(chip, keyUsable);
      Run(sent + bac.log,
          if bac.result == Err(Access) && chip.pace.Lost() then Err(Nfc) else bac.result)
  }

  function SessionRun(chip: Chip, keyUsable: bool -> bool, session: Session): Run<Unit> {
    match session
    case Pace =>
      if chip.cardAccess.result.None? || !keyUsable(true) then Run([], Err(Unreadable))
      else Mandatory(PaceSession, chip.pace, Access)
    case Bac => BacRun(chip, keyUsable)
    case Auto =>
      if chip.cardAccess.result.None? then BacRun(chip, keyUsable)
      else if !keyUsable(true) then Run([], Err(Unreadable))
      else FallbackRun(chip, keyUsable)
  }

  /** The chip's answer to this run's challenge, checked under the key of the DG15 that was read. */
  function ChallengeRun(w: World, chip: Chip, challenge: Option<Bytes>, dg15: Option<Bytes>): Run<Option<bool>>
    requires dg15.Some? ==> w.parseDg15(dg15.value).Some?
  {
    if dg15.None? then Run([], Ok(None))
    else if challenge.None? then Run([], Err(Unreadable))
    else
      var answer := Optional(true, Challenge, chip.respond(challenge.value));
      if answer.result.Err? then Run(answer.log, Err(answer.result.error))
      else
        var response := answer.result.value;
        Run(answer.log, Ok(Some(
          response.Some?
          && ActiveAuth.Verify(w.digest, w.p256, w.parseDg15(dg15.value).value, challenge.value, response.value).Ok?)))
  }

  function Finish(w: World, files: Files, anchors: seq<Bytes>, active: Option<bool>, retain: bool)
    : Result<PassportRead, IdentityError>
  {
    var identity :- VerifyFiles(w, files, anchors, active);
    Ok(PassportRead(identity, if retain then Some(files) else None))
  }

  /** DG2 and DG15, each only if wanted. */
  function OptionalsRun(w: World, chip: Chip, options: Options): Run<(Option<Bytes>, Option<Bytes>)> {
    var dg2 := Optional(options.readPortrait, Dg2, chip.dg2);
    if dg2.result.Err? then Run(dg2.log, Err(dg2.result.error))
    else
      var dg15 := Optional(options.activeAuthentication, Dg15, Parsing(chip.dg15, w.parseDg15));
      Run(dg2.log + dg15.log,
          if dg15.result.Err? then Err(dg15.result.error) else Ok((dg2.result.value, dg15.result.value)))
  }

  /** The optional groups, then EF.SOD. */
  function GroupsRun(w: World, chip: Chip, dg1: Bytes, options: Options): Run<Files> {
    var optionals := OptionalsRun(w, chip, options);
    if optionals.result.Err? then Run(optionals.log, Err(optionals.result.error))
    else
      var sod := Mandatory(Sod, chip.sod, Unreadable);
      Run(optionals.log + sod.log,
          if sod.result.Err? then Err(sod.result.error)
          else Ok(Files(sod.result.value, dg1, optionals.result.value.0, optionals.result.value.1)))
  }

  function CollectRun(w: World, chip: Chip, options: Options): (run: Run<Files>)
    ensures run.result.Ok? && run.result.value.dg15.Some? ==> w.parseDg15(run.result.value.dg15.value).Some?
  {
    var dg1 := Mandatory(Dg1, Parsing(chip.dg1, w.parseDg1), Unreadable);
    if dg1.result.Err? then Run(dg1.log, Err(dg1.result.error))
    else
      var groups := GroupsRun(w, chip, dg1.result.value, options);
      Run(dg1.log + groups.log, groups.result)
  }

  /** From the session on: the files, the challenge and the verdict. */
  function FilesRun(w: World, chip: Chip, challenge: Option<Bytes>, anchors: seq<Bytes>, options: Options)
    : Run<PassportRead>
  {
    var read := CollectRun(w, chip, options);
    if read.result.Err? then Run(read.log, Err(read.result.error))
    else
      var verdict := VerdictRun(w, chip, challenge, anchors, read.result.value, options.retainFiles);
      Run(read.log + verdict.log, verdict.result)
  }

  function VerdictRun(w: World, chip: Chip, challenge: Option<Bytes>, anchors: seq<Bytes>, files: Files, retain: bool)
    : Run<PassportRead>
    requires files.dg15.Some? ==> w.parseDg15(files.dg15.value).Some?
  {
    var active := ChallengeRun(w, chip, challenge, files.dg15);
    Run(active.log,
        if active.result.Err? then Err(active.result.error)
        else Finish(w, files, anchors, active.result.value, retain))
  }

  function ReadRun(w: World, chip: Chip, keyUsable: bool -> bool, challenge: Option<Bytes>, anchors: seq<Bytes>,
                   options: Options): Run<PassportRead>
  {
    var probe := Events(CardAccess, chip.cardAccess.answers);
    if chip.cardAccess.result.None? && chip.cardAccess.Lost() then Run(probe, Err(Nfc))
    else
      var session := SessionRun(chip, keyUsable, options.session);
      if session.result.Err? then Run(probe + session.log, Err(session.result.error))
      else
        var files := FilesRun(w, chip, challenge, anchors, options);
        Run(probe + session.log + files.log, files.result)
  }

  // ----------------------------------------------------------------- the read as it runs

  /** What a failed session means, from the flag. */
  method SessionFailed(channel: Channel) returns (e: IdentityError)
    ensures e == if channel.transportFailed then Nfc else Access
  {
    e := if channel.transportFailed then Nfc else Access;
  }

  method StartBac(channel: Channel, chip: Chip, keyUsable: bool -> bool) returns (r: Result<Unit, IdentityError>)
    modifies channel
    ensures channel.log == old(channel.log) + BacRun(chip, keyUsable).log
    ensures r == if BacRun(chip, keyUsable).result == Err(Access) && old(channel.transportFailed) then Err(Nfc)
                 else BacRun(chip, keyUsable).result
  {
    assert channel.log + [] == channel.log;
    if !keyUsable(false) { return Err(Unreadable); }
    var ok := channel.Perform(BacSession, chip.bac);
    if ok.None? {
      var e := SessionFailed(channel);
      return Err(e);
    }
    r := Ok(ok.value);
  }

  method StartSession(channel: Channel, chip: Chip, keyUsable: bool -> bool, session: Session)
    returns (r: Result<Unit, IdentityError>)
    requires !channel.transportFailed
    modifies channel
    ensures channel.log == old(channel.log) + SessionRun(chip, keyUsable, session).log
    ensures r == SessionRun(chip, keyUsable, session).result
  {
    assert channel.log + [] == channel.log;
    var access := chip.cardAccess.result;
    if session == Bac || (session == Auto && access.None?) {
      r := StartBac(channel, chip, keyUsable);
      return;
    }
    if access.None? || !keyUsable(true) { return Err(Unreadable); }
    var ok := channel.Perform(PaceSession, chip.pace);
    if ok.Some? { return Ok(ok.value); }
    if session == Pace {
      var e := SessionFailed(channel);
      return Err(e);
    }
    r := StartBac(channel, chip, keyUsable);
  }

  /** A file without which there is no read. */
  method ReadMandatory<T>(channel: Channel, ghost phase: Phase, a: Attempt<T>, refused: IdentityError)
    returns (r: Result<T, IdentityError>)
    requires !channel.transportFailed
    modifies channel
    ensures channel.log == old(channel.log) + Mandatory(phase, a, refused).log
    ensures r == Mandatory(phase, a, refused).result
  {
    var file := channel.Perform(phase, a);
    if file.None? { return Err(if channel.transportFailed then Nfc else refused); }
    r := Ok(file.value);
  }

  /** A part the chip may refuse: only then is its absence an answer. */
  method ReadOptional<T>(channel: Channel, wanted: bool, ghost phase: Phase, a: Attempt<T>)
    returns (r: Result<Option<T>, IdentityError>)
    modifies channel
    ensures channel.log == old(channel.log) + Optional(wanted, phase, a).log
    ensures r == Optional(wanted, phase, a).result
  {
    assert channel.log + [] == channel.log;
    if !wanted { return Ok(None); }
    channel.transportFailed := false;
    var file := channel.Perform(phase, a);
    if file.None? && channel.transportFailed { return Err(Nfc); }
    r := Ok(file);
  }

  /** The files a read keeps, DG15 among them parsed once for both its uses. */
  method CollectFiles(channel: Channel, w: World, chip: Chip, options: Options) returns (r: Result<Files, IdentityError>)
    requires !channel.transportFailed
    modifies channel
    ensures channel.log == old(channel.log) + CollectRun(w, chip, options).log
    ensures r == CollectRun(w, chip, options).result
  {
    ghost var before := channel.log;
    var dg1 := ReadMandatory(channel, Dg1, Parsing(chip.dg1, w.parseDg1), Unreadable);
    if dg1.Err? { return Err(dg1.error); }
    r := CollectGroups(channel, w, chip, dg1.value, options);
    LogsJoin(before, Mandatory(Dg1, Parsing(chip.dg1, w.parseDg1), Unreadable).log, GroupsRun(w, chip, dg1.value, options).log);
  }

  lemma LogsJoin(a: seq<Event>, b: seq<Event>, c: seq<Event>)
    ensures a + b + c == a + (b + c)
  {
  }

  method CollectGroups(channel: Channel, w: World, chip: Chip, dg1: Bytes, options: Options)
    returns (r: Result<Files, IdentityError>)
    modifies channel
    ensures channel.log == old(channel.log) + GroupsRun(w, chip, dg1, options).log
    ensures r == GroupsRun(w, chip, dg1, options).result
  {
    ghost var before := channel.log;
    var optionals := ReadOptionals(channel, w, chip, options);
    if optionals.Err? { return Err(optionals.error); }
    channel.transportFailed := false;
    var sod := ReadMandatory(channel, Sod, chip.sod, Unreadable);
    LogsJoin(before, OptionalsRun(w, chip, options).log, Mandatory(Sod, chip.sod, Unreadable).log);
    if sod.Err? { return Err(sod.error); }
    r := Ok(Files(sod.value, dg1, optionals.value.0, optionals.value.1));
  }

  method ReadOptionals(channel: Channel, w: World, chip: Chip, options: Options)
    returns (r: Result<(Option<Bytes>, Option<Bytes>), IdentityError>)
    modifies channel
    ensures channel.log == old(channel.log) + OptionalsRun(w, chip, options).log
    ensures r == OptionalsRun(w, chip, options).result
  {
    var dg2 := ReadOptional(channel, options.readPortrait, Dg2, chip.dg2);
    if dg2.Err? { return Err(dg2.error); }
    var dg15 := ReadOptional(channel, options.activeAuthentication, Dg15, Parsing(chip.dg15, w.parseDg15));
    if dg15.Err? { return Err(dg15.error); }
    r := Ok((dg2.value, dg15.value));
  }

  method ChallengeChip(channel: Channel, w: World, chip: Chip, challenge: Option<Bytes>, dg15: Option<Bytes>)
    returns (r: Result<Option<bool>, IdentityError>)
    requires dg15.Some? ==> w.parseDg15(dg15.value).Some?
    modifies channel
    ensures channel.log == old(channel.log) + ChallengeRun(w, chip, challenge, dg15).log
    ensures r == ChallengeRun(w, chip, challenge, dg15).result
  {
    assert channel.log + [] == channel.log;
    if dg15.None? { return Ok(None); }
    if challenge.None? { return Err(Unreadable); }
    var answer := ReadOptional(channel, true, Challenge, chip.respond(challenge.value));
    if answer.Err? { return Err(answer.error); }
    if answer.value.None? { return Ok(Some(false)); }
    var key := w.parseDg15(dg15.value).value;
    r := Ok(Some(ActiveAuth.Verify(w.digest, w.p256, key, challenge.value, answer.value.value).Ok?));
  }

  method ReadFiles(channel: Channel, w: World, chip: Chip, challenge: Option<Bytes>, anchors: seq<Bytes>,
                   options: Options) returns (r: Result<PassportRead, IdentityError>)
    requires !channel.transportFailed
    modifies channel
    ensures channel.log == old(channel.log) + FilesRun(w, chip, challenge, anchors, options).log
    ensures r == FilesRun(w, chip, challenge, anchors, options).result
  {
    ghost var before := channel.log;
    var files := CollectFiles(channel, w, chip, options);
    if files.Err? { return Err(files.error); }
    r := ReachVerdict(channel, w, chip, challenge, anchors, files.value, options.retainFiles);
    LogsJoin(before, CollectRun(w, chip, options).log,
             VerdictRun(w, chip, challenge, anchors, files.value, options.retainFiles).log);
  }

  method ReachVerdict(channel: Channel, w: World, chip: Chip, challenge: Option<Bytes>, anchors: seq<Bytes>,
                      files: Files, retain: bool) returns (r: Result<PassportRead, IdentityError>)
    requires files.dg15.Some? ==> w.parseDg15(files.dg15.value).Some?
    modifies channel
    ensures channel.log == old(channel.log) + VerdictRun(w, chip, challenge, anchors, files, retain).log
    ensures r == VerdictRun(w, chip, challenge, anchors, files, retain).result
  {
    var active := ChallengeChip(channel, w, chip, challenge, files.dg15);
    if active.Err? { return Err(active.error); }
    var identity := CheckFiles(w, files, anchors, active.value);
    if identity.Err? { return Err(identity.error); }
    r := Ok(PassportRead(identity.value, if retain then Some(files) else None));
  }

  /** `read_passport`: the flag is set by the channel, and cleared before each part that may fail on its own. */
  method ReadPassport(w: World, chip: Chip, keyUsable: bool -> bool, challenge: Option<Bytes>, anchors: seq<Bytes>,
                      options: Options) returns (r: Result<PassportRead, IdentityError>, ghost log: seq<Event>)
    ensures r == ReadRun(w, chip, keyUsable, challenge, anchors, options).result
    ensures log == ReadRun(w, chip, keyUsable, challenge, anchors, options).log
  {
    var channel := new Channel();
    var access := channel.Perform(CardAccess, chip.cardAccess);
    assert [] + Events(CardAccess, chip.cardAccess.answers) == Events(CardAccess, chip.cardAccess.answers);
    if access.None? && channel.transportFailed { return Err(Nfc), channel.log; }
    channel.transportFailed := false;
    var session := StartSession(channel, chip, keyUsable, options.session);
    if session.Err? { return Err(session.error), channel.log; }
    channel.transportFailed := false;
    r := ReadFiles(channel, w, chip, challenge, anchors, options);
    log := channel.log;
  }

  // ------------------------------------------------- what the holder is told went wrong

  predicate Clean(log: seq<Event>) {
    forall e :: e in log ==> e.answered
  }

  lemma EventsExact(phase: Phase, answers: seq<bool>, e: Event)
    ensures e in Events(phase, answers) <==> e.phase == phase && e.answered in answers
  {
    if e.phase == phase && e.answered in answers {
      var i :| 0 <= i < |answers| && answers[i] == e.answered;
      assert Events(phase, answers)[i] == e;
    }
  }

  lemma CleanExact(phase: Phase, answers: seq<bool>)
    ensures Clean(Events(phase, answers)) <==> false !in answers
  {
    EventsExact(phase, answers, Event(phase, false));
    forall e | e in Events(phase, answers) ensures e.answered in answers { EventsExact(phase, answers, e); }
  }

  /** BAC is attempted: it was asked for, or the choice was free and PACE was not announced or failed. */
  predicate ReachesBac(chip: Chip, keyUsable: bool -> bool, session: Session) {
    session == Bac || (session == Auto
                       && (chip.cardAccess.result.None? || (keyUsable(true) && chip.pace.result.None?)))
  }

  /** The protocol that would decide cannot be attempted: PACE is asked for and not announced, or its key is unusable. */
  predicate NotAttempted(chip: Chip, keyUsable: bool -> bool, session: Session) {
    || (session == Pace && chip.cardAccess.result.None?)
    || (session != Bac && chip.cardAccess.result.Some? && !keyUsable(true))
    || (ReachesBac(chip, keyUsable, session) && !keyUsable(false))
  }

  /**
   A session that was refused is a wrong key exactly when every transceive since the
   probe was answered, and a lost tag exactly when one was not; the passport is
   unreadable exactly when the protocol that would decide cannot be attempted.
   */
  lemma SessionErrorsExact(chip: Chip, keyUsable: bool -> bool, session: Session)
    ensures var run := SessionRun(chip, keyUsable, session);
            && (run.result == Err(Unreadable) <==> NotAttempted(chip, keyUsable, session))
            && (run.result == Err(Access)
                <==> run.result.Err? && !NotAttempted(chip, keyUsable, session) && Clean(run.log))
            && (run.result == Err(Nfc)
                <==> run.result.Err? && !NotAttempted(chip, keyUsable, session) && !Clean(run.log))
            && forall e :: e in run.log ==> e.phase in {PaceSession, BacSession}
  {
    CleanExact(PaceSession, chip.pace.answers);
    CleanExact(BacSession, chip.bac.answers);
    forall e: Event ensures e in Events(PaceSession, chip.pace.answers) ==> e.phase == PaceSession {
      EventsExact(PaceSession, chip.pace.answers, e);
    }
    forall e: Event ensures e in Events(BacSession, chip.bac.answers) ==> e.phase == BacSession {
      EventsExact(BacSession, chip.bac.answers, e);
    }
  }

  /**
   Which protocol opens the session: PACE whenever the chip announces it and it succeeds,
   and BAC only where it was asked for, or where the choice was free and PACE was not
   announced or failed. With PACE asked for there is no BAC at all, whatever the chip does.
   */
  lemma SessionOpensExactly(chip: Chip, keyUsable: bool -> bool, session: Session)
    ensures SessionRun(chip, keyUsable, session).result.Ok? <==>
      || (session != Bac && chip.cardAccess.result.Some? && keyUsable(true) && chip.pace.result.Some?)
      || (session != Pace && (session == Auto && chip.cardAccess.result.Some? ==> keyUsable(true))
          && keyUsable(false) && chip.bac.result.Some?)
    ensures forall e :: e in SessionRun(chip, keyUsable, session).log ==>
              if e.phase == PaceSession then session != Bac && chip.cardAccess.result.Some?
              else session == Bac || (session == Auto && (chip.cardAccess.result.None? || chip.pace.result.None?))
  {
    forall e ensures e in Events(PaceSession, chip.pace.answers) ==> e.phase == PaceSession {
      EventsExact(PaceSession, chip.pace.answers, e);
    }
    forall e ensures e in Events(BacSession, chip.bac.answers) ==> e.phase == BacSession {
      EventsExact(BacSession, chip.bac.answers, e);
    }
  }

  /** After the session no error blames the key, and a lost tag is only blamed when a transceive failed. */
  lemma FileErrors(w: World, chip: Chip, challenge: Option<Bytes>, anchors: seq<Bytes>, options: Options)
    ensures var run := FilesRun(w, chip, challenge, anchors, options);
            run.result != Err(Access) && (run.result == Err(Nfc) ==> !Clean(run.log))
  {
    var read := CollectRun(w, chip, options);
    CollectErrors(w, chip, options);
    if read.result.Ok? {
      VerdictErrors(w, chip, challenge, anchors, read.result.value, options.retainFiles);
    }
  }

  lemma CollectErrors(w: World, chip: Chip, options: Options)
    ensures var run := CollectRun(w, chip, options);
            run.result != Err(Access) && (run.result == Err(Nfc) ==> !Clean(run.log))
  {
    CleanExact(Dg1, chip.dg1.answers);
    CleanExact(Dg2, chip.dg2.answers);
    CleanExact(Dg15, chip.dg15.answers);
    CleanExact(Sod, chip.sod.answers);
  }

  lemma VerdictErrors(w: World, chip: Chip, challenge: Option<Bytes>, anchors: seq<Bytes>, files: Files, retain: bool)
    requires files.dg15.Some? ==> w.parseDg15(files.dg15.value).Some?
    ensures var run := VerdictRun(w, chip, challenge, anchors, files, retain);
            run.result != Err(Access) && (run.result == Err(Nfc) ==> !Clean(run.log))
  {
    if challenge.Some? { CleanExact(Challenge, chip.respond(challenge.value).answers); }
  }

  /**
   The two errors a holder acts on. "Hold still" is only said after a transceive failed
   in this very read; "check your document number" only when every transceive since the
   EF.CardAccess probe was answered, whatever the probe and an earlier protocol met.
   */
  lemma ErrorsTellTheTruth(w: World, chip: Chip, keyUsable: bool -> bool, challenge: Option<Bytes>,
                           anchors: seq<Bytes>, options: Options)
    ensures var run := ReadRun(w, chip, keyUsable, challenge, anchors, options);
            && (run.result == Err(Nfc) ==> exists e :: e in run.log && !e.answered)
            && (run.result == Err(Access) ==> forall e :: e in run.log && e.phase != CardAccess ==> e.answered)
  {
    var probe := Events(CardAccess, chip.cardAccess.answers);
    CleanExact(CardAccess, chip.cardAccess.answers);
    forall e: Event ensures e in probe ==> e.phase == CardAccess {
      EventsExact(CardAccess, chip.cardAccess.answers, e);
    }
    SessionErrorsExact(chip, keyUsable, options.session);
    FileErrors(w, chip, challenge, anchors, options);
  }

  /** A tag that is lost while EF.CardAccess is probed is not taken for a chip without PACE: nothing more is sent. */
  lemma LostProbeEndsTheRead(w: World, chip: Chip, keyUsable: bool -> bool, challenge: Option<Bytes>,
                             anchors: seq<Bytes>, options: Options)
    requires chip.cardAccess.result.None? && false in chip.cardAccess.answers
    ensures var run := ReadRun(w, chip, keyUsable, challenge, anchors, options);
            run.result == Err(Nfc) && forall e :: e in run.log ==> e.phase == CardAccess
  {
    forall e | e in Events(CardAccess, chip.cardAccess.answers) ensures e.phase == CardAccess {
      EventsExact(CardAccess, chip.cardAccess.answers, e);
    }
  }

  // ---------------------------------------------------------------- what a read vouches for

  /** The groups a verdict covers are exactly the files it was given. */
  lemma VerifiedExactly(w: World, files: Files, anchors: seq<Bytes>, n: Byte)
    requires Verdict(w, files, anchors).Ok?
    ensures n in Verdict(w, files, anchors).value.verifiedGroups
            <==> n == 1 || (n == 2 && files.dg2.Some?) || (n == 15 && files.dg15.Some?)
  {
    var trusted := TrustAnchors(w, anchors).value;
    PassiveAuth.VerifiedGroupsExact(w.digest, w.curves, files.sod, Groups(files), trusted, n);
    assert forall g :: g in Groups(files) <==>
        g in Group(1, Some(files.dg1)) || g in Group(2, files.dg2) || g in Group(15, files.dg15);
    assert PassiveAuth.DataGroup(1, files.dg1) in Group(1, Some(files.dg1));
    assert files.dg2.Some? ==> PassiveAuth.DataGroup(2, files.dg2.value) in Group(2, files.dg2);
    assert files.dg15.Some? ==> PassiveAuth.DataGroup(15, files.dg15.value) in Group(15, files.dg15);
  }

  /**
   A DG15 that was read is always covered once the files verify. So the guard on holder
   binding only ever withholds a success when no DG15 was given, and the warning that
   EF.SOD does not cover DG15 is never raised.
   */
  lemma ReadKeysAreCovered(w: World, files: Files, anchors: seq<Bytes>, active: Option<bool>)
    requires VerifyFiles(w, files, anchors, active).Ok?
    ensures var a := VerifyFiles(w, files, anchors, active).value.authenticity;
            && a.holderBound == (if active == Some(true) && files.dg15.None? then None else active)
            && Dg15NotCovered !in a.warnings
  {
    VerifiedExactly(w, files, anchors, 15);
    var id, v := VerifyFiles(w, files, anchors, active).value, Verdict(w, files, anchors).value;
    CoveredIsNotWarned(v, files, id.portrait, id.authenticity.holderBound, id.authenticity.notExpired);
  }

  lemma CoveredIsNotWarned(v: PassiveAuth.Verdict, files: Files, portrait: Option<Bytes>, holderBound: Option<bool>,
                           notExpired: bool)
    requires files.dg15.Some? ==> 15 in v.verifiedGroups
    ensures Dg15NotCovered !in Warnings(v, files, portrait, holderBound, notExpired)
  {
  }

  // ------------------------------------------------------------------ what is trusted

  /** The subject and key of one of these certificates. */
  ghost predicate AnchorOf(w: World, ders: seq<Bytes>, a: PassiveAuth.TrustAnchor) {
    exists der :: der in ders && PassiveTrust.IsAnchor(w.curves, der, a)
  }

  lemma {:induction false} ReadAllExactly<A, B>(read: A -> Option<B>, xs: seq<A>)
    ensures ReadAll(read, xs).Some? <==> forall x :: x in xs ==> read(x).Some?
    ensures ReadAll(read, xs).Some? ==> forall y ::
              y in ReadAll(read, xs).value <==> exists x :: x in xs && read(x) == Some(y)
  {
    if xs != [] {
      var first, others := xs[0], xs[1..];
      assert xs == [first] + others;
      ReadAllExactly(read, others);
    }
  }

  lemma ReaderExact(w: World, der: Bytes, a: PassiveAuth.TrustAnchor)
    ensures AnchorReader(w)(der) == Some(a) <==> PassiveTrust.IsAnchor(w.curves, der, a)
  {
    PassiveTrust.AnchorExact(w.curves, der, a);
  }

  /** The anchors are those of the certificates given, and they are all read or none is. */
  lemma AnchorsExactly(w: World, ders: seq<Bytes>)
    ensures TrustAnchors(w, ders).Ok? <==> AllCertificates(w, ders)
    ensures TrustAnchors(w, ders).Ok? ==> forall a :: a in TrustAnchors(w, ders).value <==> AnchorOf(w, ders, a)
  {
    var read := AnchorReader(w);
    ReadAllExactly(read, ders);
    forall der, a ensures read(der) == Some(a) <==> PassiveTrust.IsAnchor(w.curves, der, a) { ReaderExact(w, der, a); }
    ReadByCertificates(w, read, ders);
  }

  lemma ReadByCertificates(w: World, read: Bytes -> Option<PassiveAuth.TrustAnchor>, ders: seq<Bytes>)
    requires forall der, a :: read(der) == Some(a) <==> PassiveTrust.IsAnchor(w.curves, der, a)
    ensures AllCertificates(w, ders) <==> forall der :: der in ders ==> read(der).Some?
    ensures forall a :: AnchorOf(w, ders, a) <==> exists der :: der in ders && read(der) == Some(a)
  {
    forall der ensures read(der).Some? <==> exists a :: PassiveTrust.IsAnchor(w.curves, der, a) {
      if read(der).Some? { assert read(der) == Some(read(der).value); }
    }
  }

  /** Every one of these is a certificate that can be read. */
  ghost predicate AllCertificates(w: World, ders: seq<Bytes>) {
    forall der :: der in ders ==> exists a :: PassiveTrust.IsAnchor(w.curves, der, a)
  }

  /** One of these CSCA certificates issued the certificate of the object's signer. */
  ghost predicate IssuerKnown(w: World, sod: Bytes, ders: seq<Bytes>) {
    && PassiveParse.ParseSignedData(w.curves, sod).Ok?
    && IssuedByOneOf(w, ders, PassiveParse.ParseSignedData(w.curves, sod).value.signerCert)
  }

  ghost predicate IssuedByOneOf(w: World, ders: seq<Bytes>, cert: Bytes) {
    exists a :: AnchorOf(w, ders, a) && PassiveTrust.IssuedBy(w.digest, w.curves, a, cert)
  }

  lemma ChainExactly(w: World, ders: seq<Bytes>, trusted: seq<PassiveAuth.TrustAnchor>, cert: Bytes,
                     dsc: PassiveParse.Certificate)
    requires TrustAnchors(w, ders) == Ok(trusted)
    requires PassiveParse.ParseCertificate(w.curves, cert) == Ok(dsc)
    ensures PassiveAuth.Chain(w.digest, w.curves, trusted, dsc).Trusted? <==> IssuedByOneOf(w, ders, cert)
  {
    AnchorsExactly(w, ders);
    PassiveTrust.ChainIssued(w.digest, w.curves, trusted, cert, dsc);
  }

  lemma IssuerExactly(w: World, files: Files, ders: seq<Bytes>)
    requires Verdict(w, files, ders).Ok?
    ensures Verdict(w, files, ders).value.chain.Trusted? <==> IssuerKnown(w, files.sod, ders)
  {
    var trusted := TrustAnchors(w, ders).value;
    var dsc := PassiveTrust.AcceptedChain(w.digest, w.curves, files.sod, Groups(files), trusted);
    ChainExactly(w, ders, trusted, PassiveParse.ParseSignedData(w.curves, files.sod).value.signerCert, dsc);
  }

  /**
   What a verdict says of each file, exactly: the issuer is trusted if and only if one of
   the given certificates issued the signer's, and the document is in date if and only if
   the MRZ of DG1 says so; together, and nothing else, they make it trustworthy.
   */
  lemma VerdictExactly(w: World, files: Files, anchors: seq<Bytes>, active: Option<bool>)
    requires VerifyFiles(w, files, anchors, active).Ok?
    ensures var id := VerifyFiles(w, files, anchors, active).value;
            && w.parseDg1(files.dg1) == Some(id.mrz)
            && id.portrait == (if files.dg2.Some? then w.image(files.dg2.value) else None)
            && id.authenticity.dataAuthentic
            && (id.authenticity.issuerTrusted <==> IssuerKnown(w, files.sod, anchors))
            && (id.authenticity.notExpired <==> w.today <= id.mrz.dateOfExpiry)
            && (id.authenticity.IsTrustworthy() <==> IssuerKnown(w, files.sod, anchors) && w.today <= id.mrz.dateOfExpiry)
  {
    IssuerExactly(w, files, anchors);
  }

  /** Without a CSCA certificate no document is trustworthy. */
  lemma NoAnchorsNoTrust(w: World, files: Files, active: Option<bool>)
    requires VerifyFiles(w, files, [], active).Ok?
    ensures !VerifyFiles(w, files, [], active).value.authenticity.issuerTrusted
    ensures !VerifyFiles(w, files, [], active).value.authenticity.IsTrustworthy()
  {
    VerdictExactly(w, files, [], active);
  }

  /** Each file that was read hashes to what the signed object says of its group. */
  ghost predicate FilesCovered(w: World, files: Files, lds: PassiveParse.LdsSecurityObject) {
    && FileCovered(w, lds, 1, files.dg1)
    && (files.dg2.Some? ==> FileCovered(w, lds, 2, files.dg2.value))
    && (files.dg15.Some? ==> FileCovered(w, lds, 15, files.dg15.value))
  }

  predicate FileCovered(w: World, lds: PassiveParse.LdsSecurityObject, number: Byte, file: Bytes) {
    number in lds.hashes && w.digest(lds.hashAlgo, file) == lds.hashes[number]
  }

  lemma CoveredExactly(w: World, files: Files, lds: PassiveParse.LdsSecurityObject)
    ensures PassiveTrust.Covers(w.digest, lds, Groups(files)) <==> FilesCovered(w, files, lds)
  {
    var g1 := PassiveAuth.DataGroup(1, files.dg1);
    assert g1 in Group(1, Some(files.dg1));
    assert forall g :: g in Groups(files) <==>
        g in Group(1, Some(files.dg1)) || g in Group(2, files.dg2) || g in Group(15, files.dg15);
    assert files.dg2.Some? ==> PassiveAuth.DataGroup(2, files.dg2.value) in Group(2, files.dg2);
    assert files.dg15.Some? ==> PassiveAuth.DataGroup(15, files.dg15.value) in Group(15, files.dg15);
    assert g1 in Groups(files);
  }

  /** EF.SOD spells an object that covers the files, and its signer signed it. */
  ghost predicate FilesAuthentic(w: World, files: Files) {
    exists signed, lds, dsc ::
      && PassiveTrust.Spells(w.curves, files.sod, signed, lds, dsc) && FilesCovered(w, files, lds)
      && PassiveTrust.SignsObject(w.digest, w.curves, signed, dsc)
  }

  /**
   When there is a verdict, and what is said when there is none: the CSCA certificates are
   read first, then the files are authenticated, then DG1 is read.
   */
  lemma VerifiesExactly(w: World, files: Files, anchors: seq<Bytes>, active: Option<bool>)
    ensures var r := VerifyFiles(w, files, anchors, active);
            var usable := AllCertificates(w, anchors);
            && (r == Err(Anchor) <==> !usable)
            && (r == Err(NotAuthentic) <==> usable && !FilesAuthentic(w, files))
            && (r == Err(Unreadable) <==> usable && FilesAuthentic(w, files) && w.parseDg1(files.dg1).None?)
            && (r.Ok? <==> usable && FilesAuthentic(w, files) && w.parseDg1(files.dg1).Some?)
  {
    AnchorsExactly(w, anchors);
    if TrustAnchors(w, anchors).Ok? { VerdictExistsExactly(w, files, anchors); }
  }

  lemma VerdictExistsExactly(w: World, files: Files, anchors: seq<Bytes>)
    requires TrustAnchors(w, anchors).Ok?
    ensures Verdict(w, files, anchors).Ok? <==> FilesAuthentic(w, files)
    ensures Verdict(w, files, anchors).Err? ==> Verdict(w, files, anchors).error == NotAuthentic
  {
    AuthenticFiles(w, files, TrustAnchors(w, anchors).value);
  }

  lemma AuthenticFiles(w: World, files: Files, trusted: seq<PassiveAuth.TrustAnchor>)
    ensures PassiveAuth.Verify(w.digest, w.curves, files.sod, Groups(files), trusted).Ok? <==> FilesAuthentic(w, files)
  {
    PassiveTrust.AuthenticExactly(w.digest, w.curves, files.sod, Groups(files), trusted);
    forall lds ensures PassiveTrust.Covers(w.digest, lds, Groups(files)) <==> FilesCovered(w, files, lds) {
      CoveredExactly(w, files, lds);
    }
  }

  /** Files alone never bind a holder. */
  lemma FilesAloneNeverBind(w: World, files: Files, anchors: seq<Bytes>)
    requires VerifyFiles(w, files, anchors, None).Ok?
    ensures VerifyFiles(w, files, anchors, None).value.authenticity.holderBound == None
    ensures !VerifyFiles(w, files, anchors, None).value.authenticity.IsPresentAndTrustworthy()
  {
  }

  /** A verdict raises no warning exactly when nothing signed went unread and every other check came out well. */
  lemma NoWarningsExactly(w: World, files: Files, anchors: seq<Bytes>, active: Option<bool>)
    requires VerifyFiles(w, files, anchors, active).Ok?
    ensures var id := VerifyFiles(w, files, anchors, active).value;
            id.authenticity.warnings == [] <==>
              && (forall n :: n in id.signedDataGroups ==> n in id.verifiedDataGroups)
              && (files.dg2.Some? ==> id.portrait.Some?)
              && id.authenticity.holderBound != Some(false)
              && id.authenticity.notExpired
  {
    var v := Verdict(w, files, anchors).value;
    UnreadExact(v.sodGroups, v.verifiedGroups);
    VerifiedExactly(w, files, anchors, 15);
    assert v.CoversAllGroups() ==> v.sodGroups == v.verifiedGroups;
  }

  /**
   Each warning is raised exactly when there is cause for it: some signed groups went
   unread, and these are they; the photograph did not decode; active authentication
   failed; the document has expired.
   */
  lemma WarningsExactly(w: World, files: Files, anchors: seq<Bytes>, active: Option<bool>, unread: seq<Byte>)
    requires VerifyFiles(w, files, anchors, active).Ok?
    ensures var id := VerifyFiles(w, files, anchors, active).value;
            var warnings := id.authenticity.warnings;
            && (GroupsUnread(unread) in warnings
                <==> unread != [] && unread == Unread(id.signedDataGroups, id.verifiedDataGroups))
            && (NoImage in warnings <==> files.dg2.Some? && w.image(files.dg2.value).None?)
            && (ActiveAuthenticationFailed in warnings <==> active == Some(false))
            && Dg15NotCovered !in warnings
            && (Expired in warnings <==> id.mrz.dateOfExpiry < w.today)
  {
    ReadKeysAreCovered(w, files, anchors, active);
    var id, v := VerifyFiles(w, files, anchors, active).value, Verdict(w, files, anchors).value;
    WarningsHold(v, files, id.portrait, id.authenticity.holderBound, id.authenticity.notExpired, unread);
  }

  lemma WarningsHold(v: PassiveAuth.Verdict, files: Files, portrait: Option<Bytes>, holderBound: Option<bool>,
                     notExpired: bool, unread: seq<Byte>)
    ensures var warnings := Warnings(v, files, portrait, holderBound, notExpired);
            && (GroupsUnread(unread) in warnings <==> unread != [] && unread == Unread(v.sodGroups, v.verifiedGroups))
            && (NoImage in warnings <==> files.dg2.Some? && portrait.None?)
            && (ActiveAuthenticationFailed in warnings <==> holderBound == Some(false))
            && (Expired in warnings <==> !notExpired)
  {
    UnreadExact(v.sodGroups, v.verifiedGroups);
    Raised(v, files, portrait, holderBound, notExpired, GroupsUnread(unread));
    Raised(v, files, portrait, holderBound, notExpired, NoImage);
    Raised(v, files, portrait, holderBound, notExpired, ActiveAuthenticationFailed);
    Raised(v, files, portrait, holderBound, notExpired, Expired);
  }

  lemma Raised(v: PassiveAuth.Verdict, files: Files, portrait: Option<Bytes>, holderBound: Option<bool>,
               notExpired: bool, x: Warning)
    ensures var unread := Unread(v.sodGroups, v.verifiedGroups);
            x in Warnings(v, files, portrait, holderBound, notExpired) <==>
              || (x == GroupsUnread(unread) && !v.CoversAllGroups() && unread != [])
              || (x == NoImage && files.dg2.Some? && portrait.None?)
              || (x == ActiveAuthenticationFailed && holderBound == Some(false))
              || (x == Dg15NotCovered && files.dg15.Some? && 15 !in v.verifiedGroups)
              || (x == Expired && !notExpired)
  {
    var unread := Unread(v.sodGroups, v.verifiedGroups);
    var w1 := Warn([], !v.CoversAllGroups() && unread != [], GroupsUnread(unread));
    var w2 := Warn(w1, files.dg2.Some? && portrait.None?, NoImage);
    var w3 := Warn(w2, holderBound == Some(false), ActiveAuthenticationFailed);
    var w4 := Warn(w3, files.dg15.Some? && 15 !in v.verifiedGroups, Dg15NotCovered);
    OneWarning([], !v.CoversAllGroups() && unread != [], GroupsUnread(unread), x);
    OneWarning(w1, files.dg2.Some? && portrait.None?, NoImage, x);
    OneWarning(w2, holderBound == Some(false), ActiveAuthenticationFailed, x);
    OneWarning(w3, files.dg15.Some? && 15 !in v.verifiedGroups, Dg15NotCovered, x);
    OneWarning(w4, !notExpired, Expired, x);
  }

  lemma OneWarning(warnings: seq<Warning>, condition: bool, warning: Warning, x: Warning)
    ensures x in Warn(warnings, condition, warning) <==> x in warnings || (condition && x == warning)
  {
  }

  lemma {:induction false} UnreadHolds(signed: seq<Byte>, verified: seq<Byte>, n: Byte)
    ensures n in Unread(signed, verified) <==> n in signed && n !in verified
  {
    if signed != [] {
      UnreadHolds(signed[1..], verified, n);
      assert signed == [signed[0]] + signed[1..];
    }
  }

  lemma {:induction false} UnreadExact(signed: seq<Byte>, verified: seq<Byte>)
    ensures Unread(signed, verified) == [] <==> forall n :: n in signed ==> n in verified
  {
    if signed != [] {
      UnreadExact(signed[1..], verified);
      assert signed == [signed[0]] + signed[1..];
    }
  }

  // ------------------------------------------------------------------ holder binding

  /** The chip's answer to this run's challenge proves the key of the DG15 it gave. */
  ghost predicate ProvedItself(w: World, chip: Chip, challenge: Option<Bytes>) {
    && chip.dg15.result.Some? && w.parseDg15(chip.dg15.result.value).Some?
    && challenge.Some? && chip.respond(challenge.value).result.Some?
    && ActiveAuth.Proves(w.digest, w.p256, w.parseDg15(chip.dg15.result.value).value, challenge.value,
                         chip.respond(challenge.value).result.value)
  }

  /** The files a completed read verified, and the outcome of its challenge. */
  lemma CompletedRead(w: World, chip: Chip, keyUsable: bool -> bool, challenge: Option<Bytes>,
                      anchors: seq<Bytes>, options: Options) returns (files: Files, active: Option<bool>)
    requires ReadRun(w, chip, keyUsable, challenge, anchors, options).result.Ok?
    ensures var read := ReadRun(w, chip, keyUsable, challenge, anchors, options).result.value;
            && VerifyFiles(w, files, anchors, active) == Ok(read.identity)
            && (options.retainFiles ==> read.files == Some(files)) && (!options.retainFiles ==> read.files == None)
    ensures CollectRun(w, chip, options).result == Ok(files)
    ensures ChallengeRun(w, chip, challenge, files.dg15).result == Ok(active)
  {
    files := CollectRun(w, chip, options).result.value;
    active := ChallengeRun(w, chip, challenge, files.dg15).result.value;
  }

  /**
   What is collected, part by part: DG1 and EF.SOD must be obtained, and DG2 and DG15, if
   wanted, may be refused; the first part that a lost tag left without an answer ends the
   read as such, and the first mandatory part that was refused makes it unreadable.
   */
  lemma CollectExactly(w: World, chip: Chip, options: Options)
    ensures var dg1, dg15 := Parsing(chip.dg1, w.parseDg1), Parsing(chip.dg15, w.parseDg15);
            CollectRun(w, chip, options).result
            == if dg1.result.None? then Err(if false in chip.dg1.answers then Nfc else Unreadable)
               else if options.readPortrait && chip.dg2.result.None? && false in chip.dg2.answers then Err(Nfc)
               else if options.activeAuthentication && dg15.result.None? && false in chip.dg15.answers then Err(Nfc)
               else if chip.sod.result.None? then Err(if false in chip.sod.answers then Nfc else Unreadable)
               else Ok(Files(chip.sod.result.value, chip.dg1.result.value,
                             if options.readPortrait then chip.dg2.result else None,
                             if options.activeAuthentication then dg15.result else None))
  {
  }

  /** The files a read keeps are those the chip gave, the optional ones when asked for and DG15 when it parsed. */
  lemma KeptFiles(w: World, chip: Chip, options: Options, files: Files)
    requires CollectRun(w, chip, options).result == Ok(files)
    ensures chip.sod.result == Some(files.sod) && chip.dg1.result == Some(files.dg1) && w.parseDg1(files.dg1).Some?
    ensures files.dg15 == if options.activeAuthentication then Parsing(chip.dg15, w.parseDg15).result else None
    ensures files.dg2 == if options.readPortrait then chip.dg2.result else None
  {
  }

  /** The challenge went well exactly when there was a DG15 and the chip proved its key. */
  lemma ChallengeExactly(w: World, chip: Chip, challenge: Option<Bytes>, dg15: Option<Bytes>)
    requires dg15.Some? ==> dg15 == chip.dg15.result && w.parseDg15(dg15.value).Some?
    requires ChallengeRun(w, chip, challenge, dg15).result.Ok?
    ensures ChallengeRun(w, chip, challenge, dg15).result
            == Ok(if dg15.None? then None else Some(ProvedItself(w, chip, challenge)))
  {
    if dg15.Some? && challenge.Some? && chip.respond(challenge.value).result.Some? {
      ActiveAuth.VerifyExact(w.digest, w.p256, w.parseDg15(dg15.value).value, challenge.value,
                             chip.respond(challenge.value).result.value);
    }
  }

  /**
   Holder binding is exact. A completed read reports success if and only if active
   authentication was asked for and the chip proved itself on this run's challenge, and
   failure if and only if it gave a DG15 and did not.
   */
  lemma HolderBoundExactly(w: World, chip: Chip, keyUsable: bool -> bool, challenge: Option<Bytes>,
                           anchors: seq<Bytes>, options: Options)
    requires ReadRun(w, chip, keyUsable, challenge, anchors, options).result.Ok?
    ensures var a := ReadRun(w, chip, keyUsable, challenge, anchors, options).result.value.identity.authenticity;
            var key := options.activeAuthentication && Parsing(chip.dg15, w.parseDg15).result.Some?;
            && (a.holderBound == Some(true) <==> key && ProvedItself(w, chip, challenge))
            && (a.holderBound == Some(false) <==> key && !ProvedItself(w, chip, challenge))
  {
    var files, active := CompletedRead(w, chip, keyUsable, challenge, anchors, options);
    KeptFiles(w, chip, options, files);
    ChallengeExactly(w, chip, challenge, files.dg15);
    ReadKeysAreCovered(w, files, anchors, active);
  }

  /**
   … and success is about the issuer's key: the very bytes the challenge was checked
   under hash to what the security object that was read says of group 15.
   */
  lemma BoundKeyIsSigned(w: World, chip: Chip, keyUsable: bool -> bool, challenge: Option<Bytes>,
                         anchors: seq<Bytes>, options: Options)
    requires var r := ReadRun(w, chip, keyUsable, challenge, anchors, options).result;
             r.Ok? && r.value.identity.authenticity.holderBound == Some(true)
    ensures ProvedItself(w, chip, challenge)
    ensures chip.sod.result.Some? && PassiveParse.ParseSignedData(w.curves, chip.sod.result.value).Ok?
    ensures var signed := PassiveParse.ParseSignedData(w.curves, chip.sod.result.value).value;
            var lds := PassiveParse.ParseLds(signed.encapContent);
            && lds.Ok? && 15 in lds.value.hashes
            && w.digest(lds.value.hashAlgo, chip.dg15.result.value) == lds.value.hashes[15]
  {
    HolderBoundExactly(w, chip, keyUsable, challenge, anchors, options);
    var files, active := CompletedRead(w, chip, keyUsable, challenge, anchors, options);
    KeptFiles(w, chip, options, files);
    var trusted := TrustAnchors(w, anchors).value;
    PassiveAuth.AcceptedExactly(w.digest, w.curves, files.sod, Groups(files), trusted);
    assert PassiveAuth.DataGroup(15, files.dg15.value) in Group(15, files.dg15);
    assert PassiveAuth.DataGroup(15, files.dg15.value) in Groups(files);
  }

  /**
   A completed read is trustworthy exactly when one of the given certificates issued the
   signer of the EF.SOD the chip gave and the DG1 it gave is in date, and the holder is
   present as well exactly when active authentication was asked for and the chip proved
   the key of its DG15.
   */
  lemma TrustworthyExactly(w: World, chip: Chip, keyUsable: bool -> bool, challenge: Option<Bytes>,
                           anchors: seq<Bytes>, options: Options)
    requires ReadRun(w, chip, keyUsable, challenge, anchors, options).result.Ok?
    ensures chip.sod.result.Some? && chip.dg1.result.Some? && w.parseDg1(chip.dg1.result.value).Some?
    ensures var a := ReadRun(w, chip, keyUsable, challenge, anchors, options).result.value.identity.authenticity;
            var trusted := && IssuerKnown(w, chip.sod.result.value, anchors)
                           && w.today <= w.parseDg1(chip.dg1.result.value).value.dateOfExpiry;
            var key := options.activeAuthentication && Parsing(chip.dg15, w.parseDg15).result.Some?;
            && (a.IsTrustworthy() <==> trusted)
            && (a.IsPresentAndTrustworthy() <==> trusted && key && ProvedItself(w, chip, challenge))
  {
    HolderBoundExactly(w, chip, keyUsable, challenge, anchors, options);
    var files, active := CompletedRead(w, chip, keyUsable, challenge, anchors, options);
    KeptFiles(w, chip, options, files);
    VerdictExactly(w, files, anchors, active);
  }

  // ------------------------------------------------------------- lost optional reads

  /**
   A part that failed at transport is never missing from a completed read: if any
   transceive of DG2, DG15 or the challenge went unanswered, that part was obtained all
   the same, or the read ended in an error.
   */
  lemma LostPartsAreNotMissing(w: World, chip: Chip, keyUsable: bool -> bool, challenge: Option<Bytes>,
                               anchors: seq<Bytes>, options: Options)
    requires ReadRun(w, chip, keyUsable, challenge, anchors, options).result.Ok?
    ensures var run := ReadRun(w, chip, keyUsable, challenge, anchors, options);
            var verified := run.result.value.identity.verifiedDataGroups;
            && (options.readPortrait && chip.dg2.Lost() ==> 2 in verified)
            && (options.activeAuthentication && chip.dg15.Lost() ==> 15 in verified)
            && (15 in verified && challenge.Some? && chip.respond(challenge.value).Lost() ==>
                  chip.respond(challenge.value).result.Some?)
  {
    var files, active := CompletedRead(w, chip, keyUsable, challenge, anchors, options);
    KeptFiles(w, chip, options, files);
    VerifiedExactly(w, files, anchors, 2);
    VerifiedExactly(w, files, anchors, 15);
  }

  // ------------------------------------------------------------------ retained files

  /**
   Whoever verifies the retained files later runs the same check: they reach the same
   identity, except that they cannot speak to holder binding.
   */
  lemma RetainedFilesReverify(w: World, chip: Chip, keyUsable: bool -> bool, challenge: Option<Bytes>,
                              anchors: seq<Bytes>, options: Options)
    requires ReadRun(w, chip, keyUsable, challenge, anchors, options).result.Ok? && options.retainFiles
    ensures var read := ReadRun(w, chip, keyUsable, challenge, anchors, options).result.value;
            read.files.Some? && var again := VerifyFiles(w, read.files.value, anchors, None);
            && again.Ok?
            && again.value == read.identity.(authenticity := again.value.authenticity)
            && again.value.authenticity.IsTrustworthy() == read.identity.authenticity.IsTrustworthy()
            && again.value.authenticity.holderBound == None
            && forall x :: x != ActiveAuthenticationFailed ==>
                 (x in again.value.authenticity.warnings <==> x in read.identity.authenticity.warnings)
  {
    var files, active := CompletedRead(w, chip, keyUsable, challenge, anchors, options);
  }
}
