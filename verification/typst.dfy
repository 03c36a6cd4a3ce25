/**
  The few typst types the services pass around, with typst's own meaning:
  file identifiers, package specifications and compiler diagnostics.
 */
module Typst {
  import opened Wrappers

  datatype PackageVersion = PackageVersion(major: nat, minor: nat, patch: nat)

  /** `@namespace/name:version`. */
  datatype PackageSpec = PackageSpec(namespace: string, name: string, version: PackageVersion)

  /**
    `FileId`: an optional package and a virtual path, the file's components
    relative to the project root (or the package root).
   */
  datatype FileId = FileId(package: Option<PackageSpec>, vpath: seq<string>)

  /** A `SourceDiagnostic`; only its identity matters here. */
  datatype Diagnostic = Diagnostic(message: string)

  /** `Warned<T>`: a value with the warnings produced alongside it. */
  datatype Warned<T> = Warned(output: T, warnings: seq<Diagnostic>)

  /** `Result<Warned<T>, EcoVec<SourceDiagnostic>>`: a compilation outcome. */
  type Compiled<T> = Result<Warned<T>, seq<Diagnostic>>

  /** Decimal digits of `n`, as `Display` prints an unsigned integer. */
  function DecimalString(n: nat): (r: string)
    ensures |r| >= 1
    ensures forall k :: 0 <= k < |r| ==> '0' <= r[k] <= '9'
    decreases n
  {
    var digit := ['0' + (n % 10) as char];
    if n < 10 then digit else DecimalString(n / 10) + digit
  }

  /** The value a string of decimal digits denotes. */
  function DecimalValue(s: string): nat
    requires forall k :: 0 <= k < |s| ==> '0' <= s[k] <= '9'
  {
    if s == [] then 0 else 10 * DecimalValue(s[..|s| - 1]) + (s[|s| - 1] - '0') as nat
  }

  /** Printing a version component loses nothing: its digits denote it. */
  lemma {:induction false} DecimalRoundTrip(n: nat)
    ensures DecimalValue(DecimalString(n)) == n
    decreases n
  {
    var digit := ['0' + (n % 10) as char];
    if n >= 10 {
      var r := DecimalString(n / 10) + digit;
      assert r[..|r| - 1] == DecimalString(n / 10);
      DecimalRoundTrip(n / 10);
    }
  }

  /** `PackageVersion`'s `Display`: `major.minor.patch`. */
  function VersionString(v: PackageVersion): string {
    DecimalString(v.major) + "." + DecimalString(v.minor) + "." + DecimalString(v.patch)
  }
}
