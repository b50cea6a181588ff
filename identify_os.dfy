/**
 * pkg/identify_os.go: the platform tag and archive extension of the Node.js
 * release for the operating system the program runs on (runtime.GOOS, taken
 * here as a parameter).
 */
module IdentifyOs {

  /** (platform, extension) for GOOS; ("", "") for an operating system outside the three known ones. */
  function IdentifyOS(goos: string): (r: (string, string))
    ensures r.1 == "zip" <==> r.0 == "win"
    ensures r.0 == "" <==> r.1 == ""
    ensures r.0 == "" <==> goos != "windows" && goos != "darwin" && goos != "linux"
    ensures r.1 == "" || r.1 == "zip" || r.1 == "tar.xz"
  {
    match goos
    case "windows" => ("win", "zip")
    case "darwin" => ("darwin", "tar.xz")
    case "linux" => ("linux", "tar.xz")
    case _ => ("", "")
  }

  lemma KnownPlatforms()
    ensures IdentifyOS("windows") == ("win", "zip")
    ensures IdentifyOS("darwin") == ("darwin", "tar.xz")
    ensures IdentifyOS("linux") == ("linux", "tar.xz")
    ensures IdentifyOS("freebsd") == ("", "")
  {
  }
}
