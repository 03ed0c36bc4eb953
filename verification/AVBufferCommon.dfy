/** Buffer configurations: the partial order used to decide reuse, and the configuration a new buffer gets. */
module AVBufferCommon {

  datatype Option<+T> = None | Some(value: T) {
    function Extract(): T
      requires Some?
    {
      value
    }
  }

  datatype MemoryType = VirtualMemory | SharedMemory | SurfaceMemory | HardwareMemory | UnknownMemory

  datatype MemoryFlag = ReadOnly | WriteOnly | ReadWrite

  datatype SurfaceConfig = SurfaceConfig(width: int, height: int, strideAlignment: int, format: int, usage: int,
                                         transform: int, colorGamut: int, timeout: int)

  datatype Config = Config(size: int, align: int, memoryType: MemoryType, memoryFlag: MemoryFlag,
                           surface: SurfaceConfig, dmaFd: int, capacity: int)

  function AllocSize(c: Config): int {
    if c.align != 0 then c.capacity + c.align - 1 else c.capacity
  }

  /** `AVBufferConfig::operator<=`: a buffer configured as `stored` can serve `request`. */
  predicate FitsIn(request: Config, stored: Config) {
    request.memoryType == stored.memoryType &&
    match request.memoryType
    case VirtualMemory => request.size <= AllocSize(stored)
    case SharedMemory => request.size <= AllocSize(stored) && FlagServes(request, stored)
    case HardwareMemory => request.size <= AllocSize(stored) && FlagServes(request, stored)
    case SurfaceMemory => request.surface.(timeout := 0) == stored.surface.(timeout := 0)
    case UnknownMemory => false
  }

  predicate FlagServes(request: Config, stored: Config) {
    request.memoryFlag == stored.memoryFlag || stored.memoryFlag == ReadWrite
  }

  function Max(a: int, b: int): int {
    if a < b then b else a
  }

  /**
   * The configuration of a buffer created for `c`, or None when creation is refused.
   * A new buffer holds no data, so its size is 0.
   */
  function CreatedConfig(c: Config): Option<Config> {
    var capacity := Max(c.size, c.capacity);
    if c.memoryType == UnknownMemory || capacity < 0 || c.align < 0 then None
    else
      var flag := if c.memoryType in {SharedMemory, HardwareMemory} then c.memoryFlag else ReadWrite;
      Some(c.(size := 0, capacity := capacity, memoryFlag := flag))
  }

  /** A buffer created for a request serves that request. */
  lemma CreatedServesRequest(c: Config)
    requires CreatedConfig(c).Some?
    ensures FitsIn(c, CreatedConfig(c).value)
  {
  }

  /** Creation is refused for an unknown type and for negative numbers; the capacity is the larger of the two asked for. */
  lemma CreatedConfigIff(c: Config)
    ensures CreatedConfig(c).Some? <==> c.memoryType != UnknownMemory && (0 <= c.size || 0 <= c.capacity) && 0 <= c.align
    ensures CreatedConfig(c).Some? ==>
      var r := CreatedConfig(c).value;
      && r.size == 0 && c.size <= r.capacity && c.capacity <= r.capacity && r.capacity in {c.size, c.capacity}
      && (r.memoryFlag == ReadWrite || r.memoryFlag == c.memoryFlag)
      && (r.memoryFlag == c.memoryFlag || c.memoryType in {VirtualMemory, SurfaceMemory})
      && (c.memoryType in {VirtualMemory, SurfaceMemory} ==> r.memoryFlag == ReadWrite)
      && r == c.(size := r.size, capacity := r.capacity, memoryFlag := r.memoryFlag)
  {
  }

  /** A block of memory of the same type serves every request up to its capacity and alignment slack, and no other. */
  lemma MemoryServesIff(request: Config, stored: Config)
    requires request.memoryType in {VirtualMemory, SharedMemory, HardwareMemory}
    ensures FitsIn(request, stored) <==>
            && stored.memoryType == request.memoryType
            && request.size - stored.capacity <= (if stored.align == 0 then 0 else stored.align - 1)
            && (request.memoryType == VirtualMemory || stored.memoryFlag in {ReadWrite, request.memoryFlag})
  {
  }

  /** Surfaces serve each other when they agree in everything but the timeout; their sizes do not matter. */
  lemma SurfaceServesIff(request: Config, stored: Config)
    requires request.memoryType == SurfaceMemory
    ensures FitsIn(request, stored) <==>
            stored.memoryType == SurfaceMemory && request.surface == stored.surface.(timeout := request.surface.timeout)
    ensures FitsIn(request, stored) ==> FitsIn(stored, request)
  {
  }
}
