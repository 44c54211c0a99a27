/** The loader context as a value, and the host environment it runs in. */
module LoaderState {
  import opened Memory
  import opened ChainWalk

  /** An address that is not NULL. */
  type Address = x: int | 0 < x < 0x1_0000_0000_0000_0000 witness 1

  const MAX_SEGMENTS: nat := 32

  /** A recorded segment; `mapped` is zero when it is not mapped. */
  datatype SegmentInfo = SegmentInfo(segname: seq<byte>, vmaddr: u64, vmsize: u64, mapped: u64)

  /** A bind table entry; the name is None before any symbol was set, the address zero when the
      segment is bad or not mapped. */
  datatype BindInfo = BindInfo(funcName: Option<Name>, address: u64)

  /** What the host answers: where mmap places the image (zero if it fails), the import resolver,
      the libraries that can be opened with the symbols each defines, and two replacements. */
  datatype Host = Host(
    mmapBase: u64,
    resolve: map<Name, Address>,
    libraries: map<Name, map<Name, Address>>,
    mmapWrapper: Address,
    guard: Address)

  datatype Loader = Loader(
    image: Image,
    imgAddr: u64,
    vAddr: u64,
    entryPoint: u64,
    binds: seq<BindInfo>,
    dylibs: seq<Name>,
    segments: seq<SegmentInfo>)

  const INITIAL: Loader := Loader(Image([], Tally(0, 0, 0), false), 0, 0, 0, [], [], [])
}
