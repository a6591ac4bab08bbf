/**
 The passport handle's cache of the selected directory, against a chip whose every reply
 is chosen by the environment. An operation that reports an error leaves the chip's
 selection alone; a successful PACE and foreign APDUs may move it anywhere.
 */
module DirectoryCache {
  import opened Wrappers
  import opened ByteStrings

  /** What the handle believes is selected. */
  datatype SelectedDf = NoDf | Mf | Df1

  /** What the chip has selected: the master file, the eMRTD application, or something else. */
  datatype Selection = MasterFile | EmrtdApplication | Elsewhere(id: nat)

  /** The chip's files: contents by directory and short file id. */
  type Files = (Selection, Byte) -> Bytes

  class Chip {
    const files: Files
    var selected: Selection

    constructor (files: Files, selected: Selection)
      ensures this.files == files && this.selected == selected
    {
      this.files, this.selected := files, selected;
    }

    /** A SELECT, which the environment grants or refuses. */
    method Select(target: Selection, grants: bool) returns (ok: bool)
      modifies this
      ensures ok == grants
      ensures selected == if grants then target else old(selected)
    {
      if grants { selected := target; }
      ok := grants;
    }

    method ReadFileBySfi(sfi: Byte, grants: bool) returns (r: Option<Bytes>)
      ensures r == if grants then Some(files(selected, sfi)) else None
    {
      r := if grants then Some(files(selected, sfi)) else None;
    }

    /** PACE, or whatever a caller sends through `api_mut`: the selection may end up anywhere. */
    method Disturb(moved: Selection, grants: bool) returns (ok: bool)
      modifies this
      ensures ok == grants
      ensures selected == if grants then moved else old(selected)
    {
      if grants { selected := moved; }
      ok := grants;
    }
  }

  /** Every call of the handle, with the chip's replies to the APDUs it may send. */
  datatype Op =
    | ApiMut(moved: Selection)
    | StartSession(selectGrants: bool, bacGrants: bool)
    | StartSessionPace(paceGrants: bool, moved: Selection)
    | ReadAtMf(sfi: Byte, selectGrants: bool, readGrants: bool)
    | ReadUnderDf1(sfi: Byte, selectGrants: bool, readGrants: bool)

  datatype Output = Done | Failed | File(bytes: Bytes)

  datatype State = State(df: SelectedDf, selected: Selection)

  function DirectoryOf(df: SelectedDf): Selection
    requires df != NoDf
  {
    if df == Mf then MasterFile else EmrtdApplication
  }

  /** The cache tells the truth or nothing. */
  predicate Agrees(s: State) {
    s.df != NoDf ==> s.selected == DirectoryOf(s.df)
  }

  /** The cached SELECT: sent only when the cache does not already name the directory. */
  function CachedSelect(s: State, df: SelectedDf, grants: bool): (State, bool)
    requires df != NoDf
  {
    if s.df == df then (s, true)
    else if grants then (State(df, DirectoryOf(df)), true)
    else (s, false)
  }

  function CachedRead(files: Files, s: State, df: SelectedDf, sfi: Byte, selectGrants: bool, readGrants: bool)
    : (State, Output)
    requires df != NoDf
  {
    var (t, ok) := CachedSelect(s, df, selectGrants);
    if !ok || !readGrants then (t, Failed) else (t, File(files(t.selected, sfi)))
  }

  function Step(files: Files, s: State, op: Op): (State, Output) {
    match op
    case ApiMut(moved) => (State(NoDf, moved), Done)
    case StartSession(selectGrants, bacGrants) =>
      var (t, ok) := CachedSelect(s, Df1, selectGrants);
      (t, if ok && bacGrants then Done else Failed)
    case StartSessionPace(paceGrants, moved) =>
      if paceGrants then (State(NoDf, moved), Done) else (s, Failed)
    case ReadAtMf(sfi, selectGrants, readGrants) => CachedRead(files, s, Mf, sfi, selectGrants, readGrants)
    case ReadUnderDf1(sfi, selectGrants, readGrants) => CachedRead(files, s, Df1, sfi, selectGrants, readGrants)
  }

  /** The handle: its cache, and the chip it drives. */
  class Passport {
    const chip: Chip
    var df: SelectedDf

    ghost function Now(): State
      reads this, chip
    {
      State(df, chip.selected)
    }

    constructor (chip: Chip)
      ensures this.chip == chip && Now() == State(NoDf, chip.selected)
    {
      this.chip, this.df := chip, NoDf;
    }

    method SelectMf(grants: bool) returns (ok: bool)
      modifies this, chip
      ensures (Now(), ok) == CachedSelect(old(Now()), Mf, grants)
    {
      if df != Mf {
        ok := chip.Select(MasterFile, grants);
        if !ok { return; }
        df := Mf;
      }
      ok := true;
    }

    method SelectDf1(grants: bool) returns (ok: bool)
      modifies this, chip
      ensures (Now(), ok) == CachedSelect(old(Now()), Df1, grants)
    {
      if df != Df1 {
        ok := chip.Select(EmrtdApplication, grants);
        if !ok { return; }
        df := Df1;
      }
      ok := true;
    }

    /** `api_mut`, and what its caller then does to the chip. */
    method ApiMut(moved: Selection)
      modifies this, chip
      ensures (Now(), Done) == Step(chip.files, old(Now()), Op.ApiMut(moved))
    {
      df := NoDf;
      var _ := chip.Disturb(moved, true);
    }

    method StartSession(selectGrants: bool, bacGrants: bool) returns (out: Output)
      modifies this, chip
      ensures (Now(), out) == Step(chip.files, old(Now()), Op.StartSession(selectGrants, bacGrants))
    {
      var ok := SelectDf1(selectGrants);
      out := if ok && bacGrants then Done else Failed;
    }

    method StartSessionPace(paceGrants: bool, moved: Selection) returns (out: Output)
      modifies this, chip
      ensures (Now(), out) == Step(chip.files, old(Now()), Op.StartSessionPace(paceGrants, moved))
    {
      var ok := chip.Disturb(moved, paceGrants);
      if !ok { return Failed; }
      df := NoDf;
      out := Done;
    }

    method ReadAtMf(sfi: Byte, selectGrants: bool, readGrants: bool) returns (out: Output)
      modifies this, chip
      ensures (Now(), out) == Step(chip.files, old(Now()), Op.ReadAtMf(sfi, selectGrants, readGrants))
    {
      var ok := SelectMf(selectGrants);
      if !ok { return Failed; }
      var bytes := chip.ReadFileBySfi(sfi, readGrants);
      out := if bytes.Some? then File(bytes.value) else Failed;
    }

    method ReadDf1BySfi(sfi: Byte, selectGrants: bool, readGrants: bool) returns (out: Output)
      modifies this, chip
      ensures (Now(), out) == Step(chip.files, old(Now()), Op.ReadUnderDf1(sfi, selectGrants, readGrants))
    {
      var ok := SelectDf1(selectGrants);
      if !ok { return Failed; }
      var bytes := chip.ReadFileBySfi(sfi, readGrants);
      out := if bytes.Some? then File(bytes.value) else Failed;
    }
  }

  // ------------------------------------------------------------- over every call sequence

  /** A reader without a cache, which sends SELECT before each read and each BAC session. */
  function PlainStep(files: Files, selected: Selection, op: Op): (Selection, Output) {
    match op
    case ApiMut(moved) => (moved, Done)
    case StartSession(selectGrants, bacGrants) =>
      if !selectGrants then (selected, Failed)
      else (EmrtdApplication, if bacGrants then Done else Failed)
    case StartSessionPace(paceGrants, moved) => if paceGrants then (moved, Done) else (selected, Failed)
    case ReadAtMf(sfi, selectGrants, readGrants) => PlainRead(files, selected, MasterFile, sfi, selectGrants, readGrants)
    case ReadUnderDf1(sfi, selectGrants, readGrants) =>
      PlainRead(files, selected, EmrtdApplication, sfi, selectGrants, readGrants)
  }

  function PlainRead(files: Files, selected: Selection, dir: Selection, sfi: Byte, selectGrants: bool, readGrants: bool)
    : (Selection, Output)
  {
    if !selectGrants then (selected, Failed)
    else if !readGrants then (dir, Failed)
    else (dir, File(files(dir, sfi)))
  }

  function Outputs(files: Files, s: State, ops: seq<Op>): (State, seq<Output>)
    decreases |ops|
  {
    if ops == [] then (s, [])
    else
      var (t, out) := Step(files, s, ops[0]);
      var (end, outs) := Outputs(files, t, ops[1..]);
      (end, [out] + outs)
  }

  function PlainOutputs(files: Files, selected: Selection, ops: seq<Op>): (Selection, seq<Output>)
    decreases |ops|
  {
    if ops == [] then (selected, [])
    else
      var (t, out) := PlainStep(files, selected, ops[0]);
      var (end, outs) := PlainOutputs(files, t, ops[1..]);
      (end, [out] + outs)
  }

  /** The directory a call needs selected, and whether the chip grants its SELECT and what follows it. */
  datatype Need = Need(df: SelectedDf, selectGrants: bool, replyGrants: bool)

  function NeedOf(op: Op): Option<Need> {
    match op
    case StartSession(selectGrants, bacGrants) => Some(Need(Df1, selectGrants, bacGrants))
    case ReadAtMf(_, selectGrants, readGrants) => Some(Need(Mf, selectGrants, readGrants))
    case ReadUnderDf1(_, selectGrants, readGrants) => Some(Need(Df1, selectGrants, readGrants))
    case _ => None
  }

  /** What the cache names after a call, from what it named before and what the chip grants. */
  function CacheAfter(df: SelectedDf, op: Op): SelectedDf {
    match op
    case ApiMut(_) => NoDf
    case StartSessionPace(paceGrants, _) => if paceGrants then NoDf else df
    case _ =>
      var need := NeedOf(op).value;
      if need.selectGrants then need.df else df
  }

  /** The directory is cached, the chip would refuse to select it again, and would answer what follows. */
  predicate SavedByCache(df: SelectedDf, op: Op) {
    var need := NeedOf(op);
    need.Some? && df == need.value.df && !need.value.selectGrants && need.value.replyGrants
  }

  predicate NeverSaved(df: SelectedDf, ops: seq<Op>)
    decreases |ops|
  {
    ops == [] || (!SavedByCache(df, ops[0]) && NeverSaved(CacheAfter(df, ops[0]), ops[1..]))
  }

  /** The cache agrees with the chip after every call of every sequence. */
  lemma {:induction false} CacheAlwaysAgrees(files: Files, s: State, ops: seq<Op>)
    requires Agrees(s)
    ensures Agrees(Outputs(files, s, ops).0)
    decreases |ops|
  {
    if ops != [] { CacheAlwaysAgrees(files, Step(files, s, ops[0]).0, ops[1..]); }
  }

  /** What a call is for: the file of its directory, when it is a read. */
  function Wanted(files: Files, op: Op): Option<Bytes> {
    match op
    case ReadAtMf(sfi, _, _) => Some(files(MasterFile, sfi))
    case ReadUnderDf1(sfi, _, _) => Some(files(EmrtdApplication, sfi))
    case _ => None
  }

  /** Every file returned in any sequence of calls is the file of the directory its call is for. */
  lemma {:induction false} ReadsTheRightFiles(files: Files, s: State, ops: seq<Op>)
    requires Agrees(s)
    ensures var outs := Outputs(files, s, ops).1;
            |outs| == |ops| && forall i :: 0 <= i < |ops| && outs[i].File? ==> Wanted(files, ops[i]) == Some(outs[i].bytes)
    decreases |ops|
  {
    if ops != [] {
      var next := Step(files, s, ops[0]).0;
      ReadsTheRightFiles(files, next, ops[1..]);
      var outs := Outputs(files, s, ops).1;
      assert forall i :: 1 <= i < |ops| ==> outs[i] == Outputs(files, next, ops[1..]).1[i - 1];
    }
  }

  /**
   Over every call sequence the handle moves the chip exactly as the reader without a
   cache does, and gets what that reader gets wherever it gets anything.
   */
  lemma {:induction false} CacheRefines(files: Files, s: State, ops: seq<Op>)
    requires Agrees(s)
    ensures Outputs(files, s, ops).0.selected == PlainOutputs(files, s.selected, ops).0
    ensures |Outputs(files, s, ops).1| == |PlainOutputs(files, s.selected, ops).1| == |ops|
    ensures forall i :: 0 <= i < |ops| && PlainOutputs(files, s.selected, ops).1[i] != Failed ==>
              Outputs(files, s, ops).1[i] == PlainOutputs(files, s.selected, ops).1[i]
    decreases |ops|
  {
    if ops != [] {
      var next := Step(files, s, ops[0]).0;
      OneStep(files, s, ops[0]);
      CacheRefines(files, next, ops[1..]);
      var outs, plain := Outputs(files, s, ops).1, PlainOutputs(files, s.selected, ops).1;
      assert forall i :: 1 <= i < |ops| ==> outs[i] == Outputs(files, next, ops[1..]).1[i - 1];
      assert forall i :: 1 <= i < |ops| ==> plain[i] == PlainOutputs(files, next.selected, ops[1..]).1[i - 1];
    }
  }

  lemma OneStep(files: Files, s: State, op: Op)
    requires Agrees(s)
    ensures var (t, out) := Step(files, s, op);
            var (selected, plain) := PlainStep(files, s.selected, op);
            && Agrees(t) && t.selected == selected && t.df == CacheAfter(s.df, op)
            && (plain != Failed ==> out == plain)
            && (out == plain <==> !SavedByCache(s.df, op))
  {
  }

  /**
   The two get the same throughout exactly when there is no call whose directory is
   cached, whose SELECT the chip would refuse and whose reply it would give. Which calls
   those are depends on what the chip grants alone, not on what either reader gets.
   */
  lemma {:induction false} CacheIsTransparentExactly(files: Files, s: State, ops: seq<Op>)
    requires Agrees(s)
    ensures Outputs(files, s, ops).1 == PlainOutputs(files, s.selected, ops).1 <==> NeverSaved(s.df, ops)
    decreases |ops|
  {
    if ops != [] {
      var (next, out) := Step(files, s, ops[0]);
      var plain := PlainStep(files, s.selected, ops[0]).1;
      OneStep(files, s, ops[0]);
      CacheIsTransparentExactly(files, next, ops[1..]);
      Heads(out, Outputs(files, next, ops[1..]).1, plain, PlainOutputs(files, next.selected, ops[1..]).1);
    }
  }

  /** Such a run: the chip grants the first SELECT of the application and would refuse the second. */
  lemma ReadersCanDiffer(files: Files, sfi: Byte, selected: Selection)
    ensures var ops := [ReadUnderDf1(sfi, true, true), ReadUnderDf1(sfi, false, true)];
            var file := File(files(EmrtdApplication, sfi));
            && Outputs(files, State(NoDf, selected), ops).1 == [file, file]
            && PlainOutputs(files, selected, ops).1 == [file, Failed]
  {
    var first, second := ReadUnderDf1(sfi, true, true), ReadUnderDf1(sfi, false, true);
    var file := File(files(EmrtdApplication, sfi));
    var cached := State(Df1, EmrtdApplication);
    assert [first, second][1..] == [second] && [second][1..] == [];
    assert Outputs(files, cached, [second]).1 == [file] + [];
    assert PlainOutputs(files, EmrtdApplication, [second]).1 == [Failed] + [];
  }

  lemma Heads(x: Output, xs: seq<Output>, y: Output, ys: seq<Output>)
    ensures [x] + xs == [y] + ys <==> x == y && xs == ys
  {
    assert ([x] + xs)[0] == x && ([y] + ys)[0] == y;
    assert ([x] + xs)[1..] == xs && ([y] + ys)[1..] == ys;
  }
}
