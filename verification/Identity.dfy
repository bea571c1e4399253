/** The generation number that separates the runs of one daemon (identity_load and identity_bump_generation in
    src/crypto/identity.cpp). Keys are not part of this model. */
module Identity {
  import opened Bytes
  import opened PrivateStorage

  const MAX_GENERATION: uint64 := 0xFFFF_FFFF_FFFF_FFFF

  /** One start of the daemon: how the write that creates a missing identity file ends, and the write of the bump. */
  datatype Start = Start(create: Write, bump: Write)

  /** The file after loading, and the generation loaded if that succeeds. */
  function Loaded(file: Option<uint64>, create: Write): (Option<uint64>, Option<uint64>) {
    match file
    case None => (if create.Installs() then Some(1) else None, if create == Written then Some(1) else None)
    case Some(g) => (file, if g == 0 then None else Some(g))
  }

  /** The file after a start and the generation the daemon runs under, if it gets that far. */
  function Started(file: Option<uint64>, start: Start): (Option<uint64>, Option<uint64>) {
    match Loaded(file, start.create)
    case (file', None) => (file', None)
    case (_, Some(g)) =>
      if g == MAX_GENERATION then (Some(g), None)
      else (if start.bump.Installs() then Some(g + 1) else Some(g), if start.bump == Written then Some(g + 1) else None)
  }

  class Identity {
    var file: Option<uint64>
    var generation: uint64

    constructor (file: Option<uint64>)
      ensures this.file == file && generation == 1
    {
      this.file, generation := file, 1;
    }

    /** identity_load, which forgets the generation in use first. */
    method Load(create: Write) returns (ok: bool)
      modifies this
      ensures (file, if ok then Some(generation) else None) == Loaded(old(file), create)
      ensures !ok ==> generation == 1
    {
      generation := 1;
      if file.Some? {
        if file.value == 0 {
          return false;
        }
        generation := file.value;
      } else {
        if create.Installs() {
          file := Some(1);
        }
        if create != Written {
          return false;
        }
      }
      return true;
    }

    /** identity_bump_generation: the file first, then memory. */
    method BumpGeneration(write: Write) returns (ok: bool)
      modifies this
      ensures ok <==> old(generation) != MAX_GENERATION && write == Written
      ensures ok ==> generation == old(generation) + 1 && file == Some(generation)
      ensures !ok ==> generation == old(generation)
                      && file == if write == WrittenUnreported && old(generation) != MAX_GENERATION
                                 then Some(old(generation) + 1) else old(file)
    {
      if generation == MAX_GENERATION {
        return false;
      }
      var next := generation + 1;
      if write.Installs() {
        file := Some(next);
      }
      if write != Written {
        return false;
      }
      generation := next;
      return true;
    }

    /** The generation part of app_init and start_runtime; None when the daemon gives up. */
    method StartUp(start: Start) returns (used: Option<uint64>)
      modifies this
      ensures (file, used) == Started(old(file), start)
    {
      var ok := Load(start.create);
      if !ok {
        return None;
      }
      ok := BumpGeneration(start.bump);
      return if ok then Some(generation) else None;
    }
  }

  /** A start gets a daemon going exactly if its writes succeed and the number in the file, 1 for a new one, is neither
      0 nor the greatest; then the daemon runs under the next number. The file is created and then takes the next
      number whenever the writes take place, reported or not. */
  lemma StartUses(file: Option<uint64>, start: Start)
    ensures var g := if file.Some? then file.value else 1;
            var (file', used) := Started(file, start);
            && (used.Some? <==> && (file.None? ==> start.create == Written) && start.bump == Written
                                && 0 < g < 0xFFFF_FFFF_FFFF_FFFF)
            && (used.Some? ==> used.value == g + 1)
            && file' == if file.None? && start.create == NotWritten then None
                        else if || (file.None? && start.create != Written) || g == 0 || g == 0xFFFF_FFFF_FFFF_FFFF
                                || start.bump == NotWritten
                        then Some(g) else Some(g + 1)
  {
  }

  // ---------- over every sequence of starts ----------

  function FileAfter(file: Option<uint64>, starts: seq<Start>): Option<uint64> {
    if starts == [] then file else Started(FileAfter(file, starts[..|starts| - 1]), starts[|starts| - 1]).0
  }

  /** The generations the daemon has run under, in order. */
  function Generations(file: Option<uint64>, starts: seq<Start>): seq<uint64> {
    if starts == [] then []
    else
      var init := starts[..|starts| - 1];
      var used := Started(FileAfter(file, init), starts[|starts| - 1]).1;
      Generations(file, init) + if used.Some? then [used.value] else []
  }

  /** The generations increase, end at the number in the file at the latest, and start above the one in it at first. */
  ghost predicate Increasing(file: Option<uint64>, gs: seq<uint64>, after: Option<uint64>) {
    && (forall i, j | 0 <= i < j < |gs| :: gs[i] < gs[j])
    && (forall g | g in gs :: after.Some? && g <= after.value && (file.Some? ==> file.value < g))
    && (file.Some? ==> after.Some? && file.value <= after.value)
  }

  lemma OneMoreStart(file: Option<uint64>, gs: seq<uint64>, after: Option<uint64>, start: Start)
    requires Increasing(file, gs, after)
    ensures var (after', used) := Started(after, start);
            Increasing(file, if used.Some? then gs + [used.value] else gs, after')
  {
    assert forall i | 0 <= i < |gs| :: gs[i] in gs;
  }

  /** Every run has a greater generation than all runs before it and than the file at first, whatever writes failed. */
  lemma {:induction false} GenerationsIncrease(file: Option<uint64>, starts: seq<Start>)
    ensures Increasing(file, Generations(file, starts), FileAfter(file, starts))
  {
    if starts != [] {
      var init := starts[..|starts| - 1];
      GenerationsIncrease(file, init);
      OneMoreStart(file, Generations(file, init), FileAfter(file, init), starts[|starts| - 1]);
      assert Generations(file, init) + [] == Generations(file, init);
    }
  }
}
