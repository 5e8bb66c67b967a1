/** From source files through a .scmlbin image to a run of the VM. */
module EndToEnd {
  import opened Bytes
  import opened Program
  import opened Layout
  import opened ImageFile
  import opened Machine
  import opened Positions
  import opened Steps
  import opened Correctness
  import opened Compiler

  lemma FreshCorresponds(p: seq<Stmt>)
    ensures MapState(Addresses(p), Fresh()) == Fresh()
  {
    AddressOfZero(p);
  }

  lemma CompiledLoads(p: seq<Stmt>)
    requires Compile(p).Success? && TotalSize(p) < 0x1_0000_0000 && |p| < 0x1_0000_0000
    ensures CompiledFile(p).Success? && Load(CompiledFile(p).value) == Success(Compile(p).value)
  {
    hide Load, FileBytes;
    CompiledIsWritable(p);
    LoadWritten(Compile(p).value, []);
    assert FileBytes(Compile(p).value) + [] == FileBytes(Compile(p).value);
  }

  /** Compile any files the parser passes, write the image, load it into a fresh VM and step it n times: unless a step
      of the source machine uses a literal that points into an instruction, the VM is in the state the source machine
      reaches, and every step has returned what the source machine's step returns. */
  lemma CompiledFileRunsAsSource(h: Host, sources: seq<seq<Stmt>>, n: nat)
    requires Compilable(Flat(sources)) && |Flat(sources)| < 0x1_0000_0000
    requires !StraysBefore(h, Flat(sources), Fresh(), n)
    ensures var p := Flat(sources);
      && CompiledFile(p).Success? && Load(CompiledFile(p).value).Success?
      && var img := Load(CompiledFile(p).value).value;
      && After(h, img, Fresh(), n) == MapState(Addresses(p), SourceAfter(h, p, Fresh(), n))
      && (n > 0 ==> OutcomeOf(h, img, Fresh(), n) == SourceStep(h, p, SourceAfter(h, p, Fresh(), n - 1)).outcome)
  {
    hide Compile, Load, CompiledFile, VmStep, SourceStep, TotalSize, MapState, StraysBefore;
    var p := Flat(sources);
    CompiledLoads(p);
    FreshCorresponds(p);
    RunSimulated(h, p, Fresh(), n);
    if n > 0 { OutcomesSimulated(h, p, Fresh(), n); }
  }

  /** In particular for any number of steps if no jump literal points into an instruction. */
  lemma AlignedFileRunsAsSource(h: Host, sources: seq<seq<Stmt>>, n: nat)
    requires Compilable(Flat(sources)) && |Flat(sources)| < 0x1_0000_0000 && LiteralsAligned(Flat(sources))
    ensures var p := Flat(sources);
      && CompiledFile(p).Success? && Load(CompiledFile(p).value).Success?
      && var img := Load(CompiledFile(p).value).value;
      && After(h, img, Fresh(), n) == MapState(Addresses(p), SourceAfter(h, p, Fresh(), n))
      && (n > 0 ==> OutcomeOf(h, img, Fresh(), n) == SourceStep(h, p, SourceAfter(h, p, Fresh(), n - 1)).outcome)
  {
    hide Compile, Load, CompiledFile, VmStep, SourceStep, SourceAfter, TotalSize, MapState, Strays, LiteralsAligned;
    var p := Flat(sources);
    forall k | 0 <= k < n ensures !Strays(h, p, SourceAfter(h, p, Fresh(), k)) {
      AlignedNeverStrays(h, p, SourceAfter(h, p, Fresh(), k));
    }
    CompiledFileRunsAsSource(h, sources, n);
  }
}
