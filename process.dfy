/** The platform the updater runs on, as far as picking a release asset is concerned. */
module Process {

  /** There is no variant for macOS: it is one of the unsupported platforms. */
  datatype ProcessType = Windows | Linux | Unsupported

  /** Classifies the compile-time OS name (`env::consts::OS`) by exact, case-sensitive match. */
  function GetOs(os: string): (p: ProcessType)
    ensures p == Linux <==> os == "linux"
    ensures p == Windows <==> os == "windows"
    ensures p == Unsupported <==> os != "linux" && os != "windows"
  {
    match os
    case "linux" => Linux
    case "windows" => Windows
    case _ => Unsupported
  }

  /** macOS and differently-cased names fall into the unsupported bucket. */
  lemma OtherNamesAreUnsupported()
    ensures GetOs("macos") == Unsupported
    ensures GetOs("Linux") == Unsupported && GetOs("Windows") == Unsupported
    ensures GetOs("") == Unsupported
  {
  }
}
