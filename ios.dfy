/** The parts of std::ios_base that the buffers and the file system pass around. */
module IosBase {

  /** std::ios_base::openmode, one flag per field. */
  datatype OpenMode = OpenMode(input: bool, output: bool, binary: bool, ate: bool, app: bool, trunc: bool)

  const NoMode: OpenMode := OpenMode(false, false, false, false, false, false)
  const InMode: OpenMode := NoMode.(input := true)
  const OutMode: OpenMode := NoMode.(output := true)
  const BinaryMode: OpenMode := NoMode.(binary := true)

  /** Bitwise or of two modes. */
  function Union(a: OpenMode, b: OpenMode): OpenMode
  {
    OpenMode(a.input || b.input, a.output || b.output, a.binary || b.binary,
             a.ate || b.ate, a.app || b.app, a.trunc || b.trunc)
  }

  /** std::ios_base::seekdir. */
  datatype SeekDir = Beg | Cur | End
}
