/**
  Package storage: where a typst package's files are found (data directory,
  then cache directory, then a download into the cache), how the registry's
  HTTP answers are classified, the package URL, and the once-only cache of
  the registry index.

  The filesystem is the set of directories that exist plus the outcomes of
  the operations a download performs; the network is a `Client` oracle that
  answers a GET of a URL.
 */
module Package {
  import opened Wrappers
  import opened Typst
  import opened Paths
  import Utf8

  type Bytes = seq<Utf8.Byte>

  const DefaultRegistry: string := "https://packages.typst.org"
  const DefaultNamespace: string := "preview"
  const IndexUrl: string := "https://packages.typst.org/preview/index.json"

  const StatusOk: nat := 200
  const StatusNotFound: nat := 404

  /** One entry of the registry index, as deserialised from `index.json`. */
  datatype Package = Package(
    authors: seq<string>,
    categories: seq<string>,
    description: string,
    entryPoint: string,
    exclude: seq<string>,
    keywords: seq<string>,
    license: string,
    name: string,
    repository: Option<string>,
    updatedAt: nat,
    version: string)

  /** An HTTP response: its status code and its body, whose collection may fail. */
  datatype Response = Response(status: nat, body: Result<Bytes, string>)

  /** The HTTP client: the response to a GET of a URL, or the transport's error. */
  type Client = string -> Result<Response, string>

  /** `serde_json::from_reader` for the index's package list. */
  type JsonDecoder = Bytes -> Result<seq<Package>, string>

  /* ---------------------------------------------------------------- index */

  datatype IndexServiceError =
    | IndexCallError(reason: string)
    | IndexCollectError(reason: string)
    | JsonError(reason: string)
    | IndexUnexpected(status: nat, body: Bytes)

  /**
    The index service (`HttpWrapper::call` for `GetIndexRequest`): GET the
    index URL; a 200 answer is decoded, any other status is unexpected.
   */
  function CallIndex(client: Client, decode: JsonDecoder): (r: Result<seq<Package>, IndexServiceError>)
    ensures r.Ok? <==>
      (client(IndexUrl).Ok? && client(IndexUrl).value.status == StatusOk
       && client(IndexUrl).value.body.Ok? && decode(client(IndexUrl).value.body.value).Ok?)
    ensures r.Ok? ==> r.value == decode(client(IndexUrl).value.body.value).value
    ensures r.Err? && r.error.IndexUnexpected? <==>
      (client(IndexUrl).Ok? && client(IndexUrl).value.status != StatusOk && client(IndexUrl).value.body.Ok?)
    ensures r.Err? && r.error.IndexUnexpected? ==>
      r.error == IndexUnexpected(client(IndexUrl).value.status, client(IndexUrl).value.body.value)
  {
    match client(IndexUrl)
    case Err(e) => Err(IndexCallError(e))
    case Ok(Response(status, body)) =>
      match body
      case Err(e) => Err(IndexCollectError(e))
      case Ok(bytes) =>
        if status == StatusOk then
          match decode(bytes)
          case Ok(packages) => Ok(packages)
          case Err(e) => Err(JsonError(e))
        else Err(IndexUnexpected(status, bytes))
  }

  /* -------------------------------------------------------------- package */

  datatype GetPackageError = PackageNotFound

  datatype PackageServiceError =
    | InvalidUri
    | CallError(reason: string)
    | CollectError(reason: string)
    | UnexpectedResponse(status: nat, body: Bytes)

  type PackageAnswer = Result<Result<Bytes, GetPackageError>, PackageServiceError>

  /** A call that either returns or panics (a failed `assert_eq!`). */
  datatype Call<T> = Returned(value: T) | Panicked

  /**
    The URL of a package's archive. The request builder asserts the
    namespace is the default one; `None` is that assertion failing.
   */
  function PackageUrl(spec: PackageSpec): (r: Option<string>)
    ensures r.Some? <==> spec.namespace == DefaultNamespace
  {
    if spec.namespace != DefaultNamespace then None
    else Some(DefaultRegistry + "/" + DefaultNamespace + "/" + spec.name + "-" + VersionString(spec.version) + ".tar.gz")
  }

  /**
    Classification of a package response: 200 is the archive, 404 is a
    regular "not found" answer (its body is never read), any other status is
    a service error carrying the status and body.
   */
  function ClassifyPackage(response: Result<Response, string>): (r: PackageAnswer)
    ensures (exists b :: r == Ok(Ok(b))) <==>
      (response.Ok? && response.value.status == StatusOk && response.value.body.Ok?)
    ensures r.Ok? && r.value.Ok? ==> r.value.value == response.value.body.value
    ensures r == Ok(Err(PackageNotFound)) <==> (response.Ok? && response.value.status == StatusNotFound)
    ensures r.Err? && r.error.UnexpectedResponse? <==>
      (response.Ok? && response.value.status != StatusOk && response.value.status != StatusNotFound
       && response.value.body.Ok?)
    ensures r.Err? && r.error.UnexpectedResponse? ==>
      r.error == UnexpectedResponse(response.value.status, response.value.body.value)
    ensures r.Err? ==> !r.error.InvalidUri?
  {
    match response
    case Err(e) => Err(CallError(e))
    case Ok(Response(status, body)) =>
      if status == StatusOk then
        match body
        case Err(e) => Err(CollectError(e))
        case Ok(bytes) => Ok(Ok(bytes))
      else if status == StatusNotFound then Ok(Err(PackageNotFound))
      else
        match body
        case Err(e) => Err(CollectError(e))
        case Ok(bytes) => Err(UnexpectedResponse(status, bytes))
  }

  /**
    The package service (`HttpWrapper::call` for `GetPackageRequest`): build
    the URL (panicking on a foreign namespace), check it is a valid URI, GET
    it and classify the answer.
   */
  function CallPackage(spec: PackageSpec, validUri: string -> bool, client: Client): (r: Call<PackageAnswer>)
    ensures r.Panicked? <==> spec.namespace != DefaultNamespace
    ensures r.Returned? ==>
      var url := PackageUrl(spec).value;
      r.value == if validUri(url) then ClassifyPackage(client(url)) else Err(InvalidUri)
  {
    match PackageUrl(spec)
    case None => Panicked
    case Some(url) => if validUri(url) then Returned(ClassifyPackage(client(url))) else Returned(Err(InvalidUri))
  }

  /* ------------------------------------------------------- url injectivity */

  /** Index of the last occurrence of `c` in `s`. */
  function LastIndex(s: string, c: char): (r: Option<nat>)
    ensures r.Some? ==> r.value < |s| && s[r.value] == c
  {
    if s == [] then None
    else if s[|s| - 1] == c then Some(|s| - 1)
    else LastIndex(s[..|s| - 1], c)
  }

  /** In `x + [c] + y` with no `c` in `y`, the last `c` is the one after `x`. */
  lemma {:induction false} LastIndexSplits(x: string, c: char, y: string)
    requires c !in y
    ensures LastIndex(x + [c] + y, c) == Some(|x|)
    decreases |y|
  {
    var w := x + [c] + y;
    if y != [] {
      assert w[|w| - 1] == y[|y| - 1];
      assert w[..|w| - 1] == x + [c] + y[..|y| - 1];
      LastIndexSplits(x, c, y[..|y| - 1]);
    }
  }

  /** A string splits at most one way around a last separator. */
  lemma SplitUnique(x1: string, y1: string, x2: string, y2: string, c: char)
    requires c !in y1 && c !in y2
    requires x1 + [c] + y1 == x2 + [c] + y2
    ensures x1 == x2 && y1 == y2
  {
    LastIndexSplits(x1, c, y1);
    LastIndexSplits(x2, c, y2);
    var w := x1 + [c] + y1;
    assert x1 == w[..|x1|] && x2 == w[..|x2|];
    assert y1 == w[|x1| + 1..] && y2 == w[|x2| + 1..];
  }

  lemma DigitsHaveNo(n: nat, c: char)
    requires !('0' <= c <= '9')
    ensures c !in DecimalString(n)
  {
  }

  /** Distinct versions print differently. */
  lemma VersionStringInjective(a: PackageVersion, b: PackageVersion)
    requires VersionString(a) == VersionString(b)
    ensures a == b
  {
    DigitsHaveNo(a.minor, '.');
    DigitsHaveNo(a.patch, '.');
    DigitsHaveNo(b.minor, '.');
    DigitsHaveNo(b.patch, '.');
    assert VersionString(a) == (DecimalString(a.major) + "." + DecimalString(a.minor)) + ['.'] + DecimalString(a.patch);
    assert VersionString(b) == (DecimalString(b.major) + "." + DecimalString(b.minor)) + ['.'] + DecimalString(b.patch);
    SplitUnique(DecimalString(a.major) + "." + DecimalString(a.minor), DecimalString(a.patch),
                DecimalString(b.major) + "." + DecimalString(b.minor), DecimalString(b.patch), '.');
    assert DecimalString(a.major) + "." + DecimalString(a.minor) == DecimalString(a.major) + ['.'] + DecimalString(a.minor);
    assert DecimalString(b.major) + "." + DecimalString(b.minor) == DecimalString(b.major) + ['.'] + DecimalString(b.minor);
    SplitUnique(DecimalString(a.major), DecimalString(a.minor), DecimalString(b.major), DecimalString(b.minor), '.');
    DecimalRoundTrip(a.major);
    DecimalRoundTrip(a.minor);
    DecimalRoundTrip(a.patch);
    DecimalRoundTrip(b.major);
    DecimalRoundTrip(b.minor);
    DecimalRoundTrip(b.patch);
  }

  lemma VersionHasNoHyphen(v: PackageVersion)
    ensures '-' !in VersionString(v) + ".tar.gz"
  {
    DigitsHaveNo(v.major, '-');
    DigitsHaveNo(v.minor, '-');
    DigitsHaveNo(v.patch, '-');
  }

  /**
    The URL names exactly one package: since a version holds no `-`, the
    last `-` of the URL separates the name from the version, so two
    specifications with the same URL are equal.
   */
  lemma PackageUrlInjective(a: PackageSpec, b: PackageSpec)
    requires PackageUrl(a).Some? && PackageUrl(a) == PackageUrl(b)
    ensures a == b
  {
    var base := DefaultRegistry + "/" + DefaultNamespace + "/";
    var ya := VersionString(a.version) + ".tar.gz";
    var yb := VersionString(b.version) + ".tar.gz";
    assert PackageUrl(a).value == (base + a.name) + ['-'] + ya;
    assert PackageUrl(b).value == (base + b.name) + ['-'] + yb;
    VersionHasNoHyphen(a.version);
    VersionHasNoHyphen(b.version);
    SplitUnique(base + a.name, ya, base + b.name, yb, '-');
    assert a.name == (base + a.name)[|base|..];
    assert b.name == (base + b.name)[|base|..];
    assert VersionString(a.version) == ya[..|ya| - 7];
    assert VersionString(b.version) == yb[..|yb| - 7];
    VersionStringInjective(a.version, b.version);
  }

  /** The example `@preview/cetz:0.3.1`. */
  lemma PackageUrlExample()
    ensures PackageUrl(PackageSpec("preview", "cetz", PackageVersion(0, 3, 1)))
         == Some("https://packages.typst.org/preview/cetz-0.3.1.tar.gz")
    ensures PackageUrl(PackageSpec("local", "cetz", PackageVersion(0, 3, 1))).None?
  {
    assert DecimalString(0) == "0" && DecimalString(3) == "3" && DecimalString(1) == "1";
    assert VersionString(PackageVersion(0, 3, 1)) == "0.3.1";
    var url := PackageUrl(PackageSpec("preview", "cetz", PackageVersion(0, 3, 1))).value;
    assert url == "https://packages.typst.org" + "/" + "preview" + "/" + "cetz" + "-" + "0.3.1" + ".tar.gz";
    assert "https://packages.typst.org" + "/" == "https://packages.typst.org/";
    assert "https://packages.typst.org/" + "preview" == "https://packages.typst.org/preview";
    assert "https://packages.typst.org/preview" + "/" == "https://packages.typst.org/preview/";
    assert "https://packages.typst.org/preview/" + "cetz" == "https://packages.typst.org/preview/cetz";
    assert "https://packages.typst.org/preview/cetz" + "-" == "https://packages.typst.org/preview/cetz-";
    assert "https://packages.typst.org/preview/cetz-" + "0.3.1" == "https://packages.typst.org/preview/cetz-0.3.1";
    assert "https://packages.typst.org/preview/cetz-0.3.1" + ".tar.gz" == "https://packages.typst.org/preview/cetz-0.3.1.tar.gz";
    assert PackageUrl(PackageSpec("preview", "cetz", PackageVersion(0, 3, 1))) == Some(url);
  }

  /* -------------------------------------------------------------- storage */

  /** Why a network operation failed: the service error it came from. */
  datatype NetworkCause = IndexCause(index: IndexServiceError) | PackageCause(package: PackageServiceError)

  datatype OtherCause = TempDirFailed | IoFailed(io: IoError)

  /** typst's `PackageError`, for the variants this storage produces. */
  datatype PackageError =
    | NotFound(spec: PackageSpec)
    | NetworkFailed(cause: NetworkCause)
    | MalformedArchive
    | Other(reason: OtherCause)

  /**
    The placeholder specification `GetPackageError::NotFound` is converted
    with: the registry's 404 does not say which package was missing.
   */
  const PlaceholderSpec: PackageSpec := PackageSpec("", "", PackageVersion(0, 0, 0))

  /**
    `PackageStorage`: the two roots and the once-only index cell (`None`
    until the first successful fetch).
   */
  datatype Storage = Storage(cacheDirectory: Path, dataDirectory: Path, index: Option<seq<Package>>)

  function NewStorage(cacheDirectory: Path, dataDirectory: Path): (r: Storage)
    ensures r.index.None? && r.cacheDirectory == cacheDirectory && r.dataDirectory == dataDirectory
  {
    Storage(cacheDirectory, dataDirectory, None)
  }

  /**
    `namespace/name/version`, relative. typst's specification parser only
    admits non-empty identifiers without `/`, so these are three components.
   */
  function Subdirectory(spec: PackageSpec): (r: Path)
    ensures !r.absolute && |r.parts| == 3
  {
    Path(false, [spec.namespace, spec.name, VersionString(spec.version)])
  }

  /** Where a package lives under `root`. */
  function PackageDirectory(root: Path, spec: PackageSpec): (r: Path)
    ensures StripPrefix(r, root) == Some(Subdirectory(spec))
  {
    Join(root, Subdirectory(spec))
  }

  /**
    The outcomes of the filesystem operations a download performs: creating
    a temporary directory, unpacking the archive into it, creating the
    target directory, renaming the temporary directory onto it.
   */
  datatype DiskOps = DiskOps(
    tempDir: bool,
    unpacks: Bytes -> bool,
    createDir: Option<IoError>,
    rename: Option<IoError>)

  datatype Download = Download(result: Result<(), PackageError>, directories: set<Path>) | DownloadPanicked

  /**
    `download_package`: fetch the archive, unpack it into a temporary
    directory, create the cache target and rename the unpacked tree onto it.
    A rename that fails because the target is already populated counts as
    success.
   */
  function DownloadPackage(st: Storage, spec: PackageSpec, directories: set<Path>, ops: DiskOps,
                           validUri: string -> bool, client: Client): (r: Download)
    ensures r.DownloadPanicked? <==> spec.namespace != DefaultNamespace
    ensures r.Download? ==> directories <= r.directories <= directories + {PackageDirectory(st.cacheDirectory, spec)}
    ensures r.Download? && r.result.Ok? ==> PackageDirectory(st.cacheDirectory, spec) in r.directories
    ensures r.Download? && r.result.Ok? <==>
      (CallPackage(spec, validUri, client).Returned? && CallPackage(spec, validUri, client).value.Ok?
       && CallPackage(spec, validUri, client).value.value.Ok?
       && ops.tempDir && ops.unpacks(CallPackage(spec, validUri, client).value.value.value)
       && ops.createDir.None? && (ops.rename.None? || ops.rename == Some(DirectoryNotEmpty)))
    ensures r.Download? && r.result.Err? && r.result.error.NotFound? ==> r.result.error.spec == PlaceholderSpec
  {
    match CallPackage(spec, validUri, client)
    case Panicked => DownloadPanicked
    case Returned(Err(e)) => Download(Err(NetworkFailed(PackageCause(e))), directories)
    case Returned(Ok(Err(PackageNotFound))) => Download(Err(PackageError.NotFound(PlaceholderSpec)), directories)
    case Returned(Ok(Ok(archive))) =>
      var target := PackageDirectory(st.cacheDirectory, spec);
      if !ops.tempDir then Download(Err(Other(TempDirFailed)), directories)
      else if !ops.unpacks(archive) then Download(Err(MalformedArchive), directories)
      else if ops.createDir.Some? then Download(Err(Other(IoFailed(ops.createDir.value))), directories)
      else
        var created := directories + {target};
        match ops.rename
        case None => Download(Ok(()), created)
        case Some(DirectoryNotEmpty) => Download(Ok(()), created)
        case Some(e) => Download(Err(Other(IoFailed(e))), created)
  }

  datatype Prepared = Prepared(result: Result<Path, PackageError>, directories: set<Path>) | PreparePanicked

  /**
    `prepare_package`: the data directory's copy if it exists, else the
    cache's, else download into the cache and return the cache's copy if it
    now exists, else `NotFound` for the requested specification.
   */
  function PreparePackage(st: Storage, spec: PackageSpec, directories: set<Path>, ops: DiskOps,
                          validUri: string -> bool, client: Client): (r: Prepared)
    ensures PackageDirectory(st.dataDirectory, spec) in directories ==>
      r == Prepared(Ok(PackageDirectory(st.dataDirectory, spec)), directories)
    ensures PackageDirectory(st.dataDirectory, spec) !in directories && PackageDirectory(st.cacheDirectory, spec) in directories ==>
      r == Prepared(Ok(PackageDirectory(st.cacheDirectory, spec)), directories)
    ensures r.Prepared? && r.result.Ok? ==>
      r.result.value in {PackageDirectory(st.dataDirectory, spec), PackageDirectory(st.cacheDirectory, spec)}
      && r.result.value in r.directories
    ensures r.Prepared? ==> directories <= r.directories
  {
    var data := PackageDirectory(st.dataDirectory, spec);
    var cache := PackageDirectory(st.cacheDirectory, spec);
    if data in directories then Prepared(Ok(data), directories)
    else if cache in directories then Prepared(Ok(cache), directories)
    else
      match DownloadPackage(st, spec, directories, ops, validUri, client)
      case DownloadPanicked => PreparePanicked
      case Download(Err(e), after) => Prepared(Err(e), after)
      case Download(Ok(_), after) => if cache in after then Prepared(Ok(cache), after) else Prepared(Err(PackageError.NotFound(spec)), after)
  }

  /**
    When neither copy exists, the outcome is exactly the download's: its
    error propagates, and its success yields the cache's copy.
   */
  lemma PrepareDownloads(st: Storage, spec: PackageSpec, directories: set<Path>, ops: DiskOps,
                         validUri: string -> bool, client: Client)
    requires PackageDirectory(st.dataDirectory, spec) !in directories
    requires PackageDirectory(st.cacheDirectory, spec) !in directories
    ensures var d := DownloadPackage(st, spec, directories, ops, validUri, client);
      var r := PreparePackage(st, spec, directories, ops, validUri, client);
      (d.DownloadPanicked? <==> r.PreparePanicked?)
      && (d.Download? && d.result.Err? ==> r == Prepared(Err(d.result.error), d.directories))
      && (d.Download? && d.result.Ok? ==> r == Prepared(Ok(PackageDirectory(st.cacheDirectory, spec)), d.directories))
  {
  }

  /**
    A present copy means no download: the outcome is the same whatever the
    network and the download's filesystem operations would do.
   */
  lemma NoDownloadWhenPresent(st: Storage, spec: PackageSpec, directories: set<Path>,
                              ops1: DiskOps, validUri1: string -> bool, client1: Client,
                              ops2: DiskOps, validUri2: string -> bool, client2: Client)
    requires PackageDirectory(st.dataDirectory, spec) in directories
          || PackageDirectory(st.cacheDirectory, spec) in directories
    ensures PreparePackage(st, spec, directories, ops1, validUri1, client1)
         == PreparePackage(st, spec, directories, ops2, validUri2, client2)
  {
  }

  /**
    Since a successful download always leaves the cache directory in place,
    the final `NotFound(spec)` of `prepare_package` is never produced here:
    a missing package is reported by the registry's 404, with the
    placeholder specification.
   */
  lemma NotFoundIsPlaceholder(st: Storage, spec: PackageSpec, directories: set<Path>, ops: DiskOps,
                              validUri: string -> bool, client: Client)
    ensures var r := PreparePackage(st, spec, directories, ops, validUri, client);
      r.Prepared? && r.result.Err? && r.result.error.NotFound? ==> r.result.error.spec == PlaceholderSpec
  {
  }

  /**
    A rename that fails for another reason still leaves the freshly created,
    empty cache directory behind, so the next `prepare_package` returns it
    without downloading.
   */
  lemma FailedRenameLeavesDirectory(st: Storage, spec: PackageSpec, directories: set<Path>, ops: DiskOps,
                                    validUri: string -> bool, client: Client, reason: string,
                                    ops2: DiskOps, client2: Client)
    requires PackageDirectory(st.dataDirectory, spec) !in directories
    requires PackageDirectory(st.cacheDirectory, spec) !in directories
    requires CallPackage(spec, validUri, client).Returned?
    requires CallPackage(spec, validUri, client).value.Ok? && CallPackage(spec, validUri, client).value.value.Ok?
    requires ops.tempDir && ops.unpacks(CallPackage(spec, validUri, client).value.value.value)
    requires ops.createDir.None? && ops.rename == Some(OtherIo(reason))
    ensures var first := PreparePackage(st, spec, directories, ops, validUri, client);
      first.Prepared? && first.result == Err(Other(IoFailed(OtherIo(reason))))
      && PreparePackage(st, spec, first.directories, ops2, validUri, client2).result
         == Ok(PackageDirectory(st.cacheDirectory, spec))
  {
    var first := PreparePackage(st, spec, directories, ops, validUri, client);
    var cache := PackageDirectory(st.cacheDirectory, spec);
    assert first.directories == directories + {cache};
    if PackageDirectory(st.dataDirectory, spec) == cache {
      assert PreparePackage(st, spec, first.directories, ops2, validUri, client2).result == Ok(cache);
    }
  }

  /* ---------------------------------------------------------------- index */

  /** One `get_index` call: the cached index, or a service call whose success is cached. */
  datatype IndexStep = IndexStep(result: Result<seq<Package>, PackageError>, index: Option<seq<Package>>, called: bool)

  function GetIndex(index: Option<seq<Package>>, answer: Result<seq<Package>, IndexServiceError>): (r: IndexStep)
    ensures r.called <==> index.None?
    ensures index.Some? ==> r.result == Ok(index.value) && r.index == index
    ensures index.None? && answer.Ok? ==> r.result == Ok(answer.value) && r.index == Some(answer.value)
    ensures index.None? && answer.Err? ==> r.result == Err(NetworkFailed(IndexCause(answer.error))) && r.index.None?
  {
    match index
    case Some(packages) => IndexStep(Ok(packages), index, false)
    case None =>
      match answer
      case Ok(packages) => IndexStep(Ok(packages), Some(packages), true)
      case Err(e) => IndexStep(Err(NetworkFailed(IndexCause(e))), None, true)
  }

  /**
    `n` successive `get_index` calls. `service(k)` is the index service's
    answer to its `k`-th call; `calls` service calls have been made so far.
    Returns the results and the number of service calls made in all.
   */
  function GetIndexRepeatedly(index: Option<seq<Package>>, service: nat -> Result<seq<Package>, IndexServiceError>,
                              calls: nat, n: nat): (r: (seq<Result<seq<Package>, PackageError>>, nat))
    ensures |r.0| == n && r.1 >= calls
    decreases n
  {
    if n == 0 then ([], calls)
    else
      var step := GetIndex(index, service(calls));
      var rest := GetIndexRepeatedly(step.index, service, if step.called then calls + 1 else calls, n - 1);
      ([step.result] + rest.0, rest.1)
  }

  /** Once the index is cached, every call returns it and the service is not called. */
  lemma {:induction false} CachedIndexIsStable(packages: seq<Package>, service: nat -> Result<seq<Package>, IndexServiceError>,
                                               calls: nat, n: nat)
    ensures var r := GetIndexRepeatedly(Some(packages), service, calls, n);
      r.1 == calls && forall k :: 0 <= k < n ==> r.0[k] == Ok(packages)
    decreases n
  {
    if n > 0 {
      CachedIndexIsStable(packages, service, calls, n - 1);
    }
  }

  /**
    From an empty cell, the service is called until its first success and
    never again: the calls before it fail, every call from it on returns the
    index it produced, and the number of service calls is one more than the
    failures (or `n`, if fewer calls were made).
   */
  lemma {:induction false} IndexFetchedUntilFirstSuccess(service: nat -> Result<seq<Package>, IndexServiceError>,
                                                         calls: nat, first: nat, n: nat)
    requires calls <= first
    requires forall k :: calls <= k < first ==> service(k).Err?
    requires service(first).Ok?
    ensures var r := GetIndexRepeatedly(None, service, calls, n);
      r.1 == calls + (if n <= first - calls then n else first - calls + 1)
      && (forall k :: 0 <= k < n && calls + k < first ==> r.0[k] == Err(NetworkFailed(IndexCause(service(calls + k).error))))
      && (forall k :: 0 <= k < n && calls + k >= first ==> r.0[k] == Ok(service(first).value))
    decreases n
  {
    if n > 0 {
      var step := GetIndex(None, service(calls));
      var r := GetIndexRepeatedly(None, service, calls, n);
      if calls == first {
        CachedIndexIsStable(service(first).value, service, calls + 1, n - 1);
        var rest := GetIndexRepeatedly(step.index, service, calls + 1, n - 1);
        assert r.0 == [step.result] + rest.0;
      } else {
        IndexFetchedUntilFirstSuccess(service, calls + 1, first, n - 1);
        var rest := GetIndexRepeatedly(None, service, calls + 1, n - 1);
        assert r.0 == [step.result] + rest.0;
        assert forall k :: 1 <= k < n ==> r.0[k] == rest.0[k - 1];
      }
    }
  }

  /**
    `PackageStorage::get_index` on the storage: the result, and the storage
    with the index cached after a success.
   */
  function StorageGetIndex(st: Storage, client: Client, decode: JsonDecoder): (r: (Result<seq<Package>, PackageError>, Storage))
    ensures r.1.cacheDirectory == st.cacheDirectory && r.1.dataDirectory == st.dataDirectory
    ensures st.index.Some? ==> r == (Ok(st.index.value), st)
    ensures st.index.None? ==> (r.0.Ok? <==> CallIndex(client, decode).Ok?) && (r.0.Ok? ==> r.1.index == Some(r.0.value))
  {
    var step := GetIndex(st.index, CallIndex(client, decode));
    (step.result, st.(index := step.index))
  }
}
