/** src/config/config_validator.cpp and src/config/job_config.cpp. */
module Config {
  import opened Types
  import opened Buffers

  datatype RWMode = ReadOnly | WriteOnly | RandRead | RandWrite | ReadWrite | RandRW

  datatype AccessPattern = Sequential | Random

  datatype JobConfig = JobConfig(
    name: string, engine: string, rwMode: RWMode, accessPattern: AccessPattern,
    blockSize: nat, fileSize: nat, iodepth: int, rwmixread: int, alignment: nat)

  datatype ConfigError =
    | EmptyName | AlignmentNotPowerOfTwo | ZeroBlockSize | BlockSizeUnaligned | FileSmallerThanBlock
    | FileSizeUnaligned | UnknownEngine | MixOutOfRange | DepthBelowOne | NoJobs | DuplicateName

  /** Sizes are size_t and the depth is an int. */
  ghost predicate MachineSized(c: JobConfig) {
    c.blockSize <= U64_MAX && c.fileSize <= U64_MAX && c.alignment <= U64_MAX && c.iodepth <= 0x7FFF_FFFF
  }

  predicate IsSynchronousEngine(engine: string) {
    engine == "sync" || engine == "psync"
  }

  predicate IsKnownEngine(engine: string) {
    engine == "psync" || engine == "sync" || engine == "libaio" || engine == "io_uring"
  }

  function EffectiveIODepth(c: JobConfig): int {
    if IsSynchronousEngine(c.engine) then 1 else c.iodepth
  }

  /** The first rule that fails, in the order of the source; the rw_mode check
      rejects values outside the enum, which the type already excludes. */
  function Validate(c: JobConfig): Result<(), ConfigError> {
    if c.name == "" then Failure(EmptyName)
    else if c.alignment == 0 || BitAnd(c.alignment, c.alignment - 1) != 0 then Failure(AlignmentNotPowerOfTwo)
    else if c.blockSize == 0 then Failure(ZeroBlockSize)
    else if c.blockSize % c.alignment != 0 then Failure(BlockSizeUnaligned)
    else if c.fileSize < c.blockSize then Failure(FileSmallerThanBlock)
    else if c.fileSize % c.alignment != 0 then Failure(FileSizeUnaligned)
    else if !IsKnownEngine(c.engine) then Failure(UnknownEngine)
    else if c.rwmixread < 0 || c.rwmixread > 100 then Failure(MixOutOfRange)
    else if c.iodepth < 1 then Failure(DepthBelowOne)
    else Success(())
  }

  /** What the rest of the program relies on. */
  ghost predicate Sound(c: JobConfig) {
    && c.name != ""
    && IsPowerOfTwo(c.alignment)
    && 0 < c.blockSize <= c.fileSize
    && c.blockSize % c.alignment == 0
    && c.fileSize % c.alignment == 0
    && (c.engine == "psync" || c.engine == "sync" || c.engine == "libaio" || c.engine == "io_uring")
    && 0 <= c.rwmixread <= 100
    && 1 <= c.iodepth
  }

  /** Validation accepts exactly the sound configurations. */
  lemma ValidateDecidesSound(c: JobConfig)
    ensures Validate(c).Success? <==> Sound(c)
  {
    if c.alignment > 0 {
      BitTrickIsPowerOfTwo(c.alignment);
    }
  }

  /** The rules, each with its message. */
  ghost predicate Breaks(c: JobConfig, e: ConfigError) {
    match e
    case EmptyName => c.name == ""
    case AlignmentNotPowerOfTwo => !IsPowerOfTwo(c.alignment)
    case ZeroBlockSize => c.blockSize == 0
    case BlockSizeUnaligned => c.alignment > 0 && c.blockSize % c.alignment != 0
    case FileSmallerThanBlock => c.fileSize < c.blockSize
    case FileSizeUnaligned => c.alignment > 0 && c.fileSize % c.alignment != 0
    case UnknownEngine =>
      c.engine != "psync" && c.engine != "sync" && c.engine != "libaio" && c.engine != "io_uring"
    case MixOutOfRange => !(0 <= c.rwmixread <= 100)
    case DepthBelowOne => c.iodepth < 1
    case NoJobs | DuplicateName => false
  }

  /** The order in which they are looked at. */
  function Order(e: ConfigError): nat {
    match e
    case EmptyName => 0
    case AlignmentNotPowerOfTwo => 1
    case ZeroBlockSize => 2
    case BlockSizeUnaligned => 3
    case FileSmallerThanBlock => 4
    case FileSizeUnaligned => 5
    case UnknownEngine => 6
    case MixOutOfRange => 7
    case DepthBelowOne => 8
    case NoJobs | DuplicateName => 9
  }

  /** A rejected configuration is told the first rule that it breaks. */
  lemma ValidateReportsFirst(c: JobConfig, e: ConfigError)
    ensures Validate(c) == Failure(e) <==> Breaks(c, e) && forall d :: Breaks(c, d) ==> Order(e) <= Order(d)
  {
    if c.alignment > 0 {
      BitTrickIsPowerOfTwo(c.alignment);
    }
    hide BitAnd, IsPowerOfTwo;
    if Validate(c).Failure? {
      assert Breaks(c, Validate(c).error);
    }
  }

  ghost predicate NamesDistinct(configs: seq<JobConfig>) {
    forall i, j :: 0 <= i < j < |configs| ==> configs[i].name != configs[j].name
  }

  /** ValidateAll: the whole list is accepted exactly when it is not empty, every
      job is sound and no two jobs share a name. */
  method ValidateAll(configs: seq<JobConfig>) returns (r: Result<(), ConfigError>)
    ensures r.Success? <==> configs != [] && (forall c :: c in configs ==> Sound(c)) && NamesDistinct(configs)
    ensures r == Failure(NoJobs) <==> configs == []
    ensures r == Failure(DuplicateName) <==> (forall c :: c in configs ==> Sound(c)) && !NamesDistinct(configs)
    ensures r.Failure? && !r.error.NoJobs? && !r.error.DuplicateName? ==>
      exists i :: 0 <= i < |configs| && r == Validate(configs[i]) && forall k :: 0 <= k < i ==> Sound(configs[k])
  {
    if configs == [] {
      return Failure(NoJobs);
    }
    for i := 0 to |configs|
      invariant forall k :: 0 <= k < i ==> Sound(configs[k])
    {
      ValidateDecidesSound(configs[i]);
      var one := Validate(configs[i]);
      if one.Failure? {
        assert configs[i] in configs;
        return one;
      }
    }
    r := ValidateUniqueNames(configs);
  }

  method ValidateUniqueNames(configs: seq<JobConfig>) returns (r: Result<(), ConfigError>)
    ensures r.Success? <==> NamesDistinct(configs)
    ensures r.Failure? ==> r.error == DuplicateName
  {
    var seen: set<string> := {};
    for i := 0 to |configs|
      invariant forall k :: 0 <= k < i ==> configs[k].name in seen
      invariant forall n :: n in seen ==> exists k :: 0 <= k < i && configs[k].name == n
      invariant forall k, l :: 0 <= k < l < i ==> configs[k].name != configs[l].name
    {
      if configs[i].name in seen {
        return Failure(DuplicateName);
      }
      seen := seen + {configs[i].name};
    }
    r := Success(());
  }
}
