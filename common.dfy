/**
 * Shared vocabulary of the model: paths, bytes, permission bits, and the
 * error values that the Go code builds with errors.New / fmt.Errorf or
 * receives from the os and archive/zip packages.
 */
module Common {

  /** A path relative to the process's working directory, one element per component. */
  type Path = seq<string>

  type Bytes = seq<bv8>

  /** os.FileMode is a uint32. */
  newtype Mode = x: int | 0 <= x < 0x1_0000_0000

  /** os.ModePerm, 0o777 */
  const ModePerm: Mode := 0x1FF
  /** 0o755, the permission the code passes to MkdirAll in the download and use paths */
  const DirPerm: Mode := 0x1ED
  /** 0o666, the permission os.Create uses */
  const CreatePerm: Mode := 0x1B6

  datatype Option<T> = None | Some(value: T)

  /**
   * The errors the core produces or passes on. Each constructor stands for one
   * message of the Go code; Text gives that message.
   */
  datatype Error =
    | PathError(op: string, path: Path)      // *os.PathError / *os.LinkError from a filesystem call
    | ZipChecksum                             // archive/zip while copying an entry
    | ZipAlgorithm                            // archive/zip opening an entry
    | InvalidLength                           // pkg/validate_arg.go
    | InvalidFormat                           // pkg/validate_arg.go
    | VersionsDirMissing                      // pkg/get_versions_dir.go
    | BadStatus(code: int)                    // download status other than 200
    | VersionNotInstalled(version: string)    // use
    | NodeVersionNotInstalled(version: string) // uninstall
    | NodeExeNotFound(version: string)        // WindowsFinder.Find
    | RegistryError(op: string)               // a failed registry read or write
    | Wrapped(context: string, cause: Error)  // fmt.Errorf("context: %v", cause)

  /** The decimal rendering of n, as %d prints it. */
  function Decimal(n: nat): (s: string)
    ensures |s| >= 1
    decreases n
  {
    var d := ['0' + (n % 10) as char];
    if n < 10 then d else Decimal(n / 10) + d
  }

  /** The message an error prints with %v. */
  function Text(e: Error): string
  {
    match e
    case PathError(op, path) => op + " " + PathText(path)
    case ZipChecksum => "zip: checksum error"
    case ZipAlgorithm => "zip: unsupported compression algorithm"
    case InvalidLength => "invalid length format \nExample: 20.5.1"
    case InvalidFormat => "invalid version format \nExample: 20.5.1"
    case VersionsDirMissing => "versions directory does not exist"
    case BadStatus(code) => "failed to download Node.js: status " + (if code < 0 then "-" + Decimal(-code) else Decimal(code))
    case VersionNotInstalled(v) => "version " + v + " is not installed"
    case NodeVersionNotInstalled(v) => "Node.js version " + v + " is not installed"
    case NodeExeNotFound(v) => "could not find node.exe in version " + v
    case RegistryError(op) => op
    case Wrapped(context, cause) => context + ": " + Text(cause)
  }

  /** A path written with `/` between the components. */
  function PathText(p: Path): string
  {
    if |p| == 0 then "."
    else if |p| == 1 then p[0]
    else p[0] + "/" + PathText(p[1..])
  }

  datatype Result<T> = Success(value: T) | Failure(error: Error)

  /**
   * What a reader yields: all of its bytes, or some bytes and then an error
   * (an HTTP body cut short, a zip entry whose checksum does not match).
   */
  datatype Stream = Whole(data: Bytes) | Truncated(prefix: Bytes, cause: Error)

  /** No element occurs twice. */
  predicate Distinct<T(==)>(s: seq<T>)
  {
    forall i, j :: 0 <= i < j < |s| ==> s[i] != s[j]
  }

  /** The tail of a sequence without repeats has none and lacks the head. */
  lemma DistinctTail<T>(s: seq<T>)
    requires Distinct(s) && s != []
    ensures s[0] !in s[1..] && Distinct(s[1..])
    ensures forall x :: x in s[1..] ==> x in s
  {
    assert forall i :: 0 <= i < |s[1..]| ==> s[1..][i] == s[i + 1];
  }

  lemma DistinctConcat<T>(a: seq<T>, b: seq<T>)
    requires Distinct(a) && Distinct(b)
    requires forall x :: x in a ==> x !in b
    ensures Distinct(a + b)
  {
    forall i, j | 0 <= i < j < |a + b| ensures (a + b)[i] != (a + b)[j] {
      if j >= |a| && i < |a| {
        assert (a + b)[i] in a && (a + b)[j] in b;
      } else if i >= |a| {
        assert (a + b)[i] == b[i - |a|] && (a + b)[j] == b[j - |a|];
      }
    }
  }

  /** A Go `error` result: nil is Ok. */
  datatype Outcome = Ok | Err(error: Error)

}
