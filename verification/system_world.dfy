/**
  The file cache the compiler reads through (`SystemWorld`, `FileSlot`,
  `SlotCell`) and the byte decoding it applies to source files. Reading a
  file and hashing a read result are outside the model: they are passed in
  as the value `load()` would return and as the function `hash128`.
 */
module SystemWorld {
  import opened Wrappers
  import opened Typst
  import opened Utf8

  /** `typst::diag::FileError`, reduced to the cases this code produces or passes on. */
  datatype FileError = NotFound | AccessDenied | IsDirectory | InvalidUtf8 | OtherFileError(reason: string)

  type FileResult<T> = Result<T, FileError>

  newtype U128 = x: int | 0 <= x < 0x1_0000_0000_0000_0000_0000_0000_0000_0000

  /** `typst::utils::hash128` of a read result. */
  type Hasher = FileResult<seq<Byte>> -> U128

  // ---------------------------------------------------------------------------
  // decode_utf8

  /** The UTF-8 byte order mark, `EF BB BF`. */
  const Bom: seq<Byte> := [0xEF, 0xBB, 0xBF]

  /** `buf.strip_prefix(BOM).unwrap_or(buf)`. */
  function StripBom(buf: seq<Byte>): (r: seq<Byte>)
    ensures Bom <= buf ==> buf == Bom + r
    ensures !(Bom <= buf) ==> r == buf
  {
    if Bom <= buf then buf[|Bom|..] else buf
  }

  /** At most one mark is removed: a second one stays part of the text. */
  lemma StripBomOnce(text: seq<Byte>)
    ensures StripBom(Bom + text) == text
    ensures StripBom(Bom + Bom + text) == Bom + text
  {
    assert Bom <= Bom + text;
    assert Bom <= Bom + Bom + text;
    assert (Bom + Bom + text)[|Bom|..] == Bom + text;
  }

  /**
    `decode_utf8`: the text after the optional byte order mark, if that is
    well-formed UTF-8, and `InvalidUtf8` otherwise.
   */
  function DecodeUtf8(buf: seq<Byte>): (r: FileResult<seq<Byte>>)
    ensures r.Ok? <==> WellFormed(StripBom(buf))
    ensures r.Ok? ==> r.value == StripBom(buf)
    ensures r.Err? ==> r.error == InvalidUtf8
  {
    var text := StripBom(buf);
    if WellFormed(text) then Ok(text) else Err(InvalidUtf8)
  }

  /**
    The byte order mark is itself the well-formed character U+FEFF, yet a
    buffer that starts with it decodes to the text after it.
   */
  lemma BomDecodes(text: seq<Byte>)
    requires WellFormed(text)
    ensures WellFormed(Bom) && DecodeChar(Bom) == 0xFEFF
    ensures DecodeUtf8(Bom + text) == Ok(text)
  {
    assert IsChar(Bom);
    CharWellFormed(Bom);
    StripBomOnce(text);
  }

  // ---------------------------------------------------------------------------
  // SlotCell

  /**
    `SlotCell<T>`: the processed result of the last read (if any), the hash
    of that read, and whether the cell was used in the current compilation.
   */
  datatype SlotCell<T> = SlotCell(data: Option<FileResult<T>>, fingerprint: U128, accessed: bool)

  /** `SlotCell::new`. */
  function NewCell<T>(): (c: SlotCell<T>)
    ensures c.data.None? && !c.accessed
  {
    SlotCell(None, 0, false)
  }

  /** `SlotCell::reset`: only the access flag is cleared. */
  function ResetCell<T>(c: SlotCell<T>): (r: SlotCell<T>)
    ensures !r.accessed && r.data == c.data && r.fingerprint == c.fingerprint
  {
    c.(accessed := false)
  }

  /**
    The outcome of `get_or_init`: the new cell, the value returned, whether
    `load` ran and whether `f` ran.
   */
  datatype Lookup<T> = Lookup(cell: SlotCell<T>, value: FileResult<T>, loaded: bool, processed: bool)

  /** The previous value `f` receives: the cached one, if it was a success. */
  function Previous<T>(c: SlotCell<T>): Option<T> {
    if c.data.Some? && c.data.value.Ok? then Some(c.data.value.value) else None
  }

  /**
    `SlotCell::get_or_init`. `load` is the read result `load()` would give
    and `hash` stands for `hash128`.
   */
  function GetOrInit<T>(c: SlotCell<T>, load: FileResult<seq<Byte>>, hash: Hasher,
                        f: (seq<Byte>, Option<T>) -> FileResult<T>): (r: Lookup<T>)
    ensures r.cell.accessed && r.cell.data == Some(r.value)
    ensures c.accessed && c.data.Some? ==> r == Lookup(c, c.data.value, false, false)
    ensures !(c.accessed && c.data.Some?) ==> r.loaded && r.cell.fingerprint == hash(load)
    ensures r.loaded && hash(load) == c.fingerprint && c.data.Some? ==>
      !r.processed && r.value == c.data.value
    ensures r.loaded && !(hash(load) == c.fingerprint && c.data.Some?) ==>
      && (r.processed <==> load.Ok?)
      && r.value == (if load.Ok? then f(load.value, Previous(c)) else Err(load.error))
  {
    if c.accessed && c.data.Some? then Lookup(c, c.data.value, false, false)
    else
      var fingerprint := hash(load);
      if c.fingerprint == fingerprint && c.data.Some? then
        Lookup(c.(accessed := true), c.data.value, true, false)
      else
        var value := match load
          case Ok(bytes) => f(bytes, Previous(c))
          case Err(e) => Err(e);
        Lookup(SlotCell(Some(value), fingerprint, true), value, true, load.Ok?)
  }

  /**
    Within one compilation a cell is read at most once: a second
    `get_or_init` returns the first one's value without loading.
   */
  lemma GetOrInitTwice<T>(c: SlotCell<T>, load1: FileResult<seq<Byte>>, load2: FileResult<seq<Byte>>,
                          hash: Hasher, f: (seq<Byte>, Option<T>) -> FileResult<T>)
    ensures var first := GetOrInit(c, load1, hash, f);
      var second := GetOrInit(first.cell, load2, hash, f);
      !second.loaded && second.value == first.value && second.cell == first.cell
  {
  }

  /**
    Across compilations: after `reset`, reading the same content again (same
    hash) gives back the cached value without processing it again.
   */
  lemma UnchangedAfterReset<T>(c: SlotCell<T>, load1: FileResult<seq<Byte>>, load2: FileResult<seq<Byte>>,
                               hash: Hasher, f: (seq<Byte>, Option<T>) -> FileResult<T>)
    requires !c.accessed && hash(load1) == hash(load2)
    ensures var first := GetOrInit(c, load1, hash, f);
      var second := GetOrInit(ResetCell(first.cell), load2, hash, f);
      second.loaded && !second.processed && second.value == first.value
  {
  }

  // ---------------------------------------------------------------------------
  // FileSlot

  /** A parsed source file: its id and text (the syntax tree is not modelled). */
  datatype Source = Source(id: FileId, text: seq<Byte>)

  /** `FileSlot`: the two cells of one file, as source text and as raw bytes. */
  datatype FileSlot = FileSlot(id: FileId, source: SlotCell<Source>, file: SlotCell<seq<Byte>>)

  /** `FileSlot::new`. */
  function NewSlot(id: FileId): (s: FileSlot)
    ensures s.id == id && !SlotAccessed(s)
  {
    FileSlot(id, NewCell(), NewCell())
  }

  /** `FileSlot::accessed`: either cell was used in this compilation. */
  predicate SlotAccessed(s: FileSlot) {
    s.source.accessed || s.file.accessed
  }

  /** `FileSlot::reset`: both cells forget the access, and keep their data. */
  function ResetSlot(s: FileSlot): (r: FileSlot)
    ensures !SlotAccessed(r)
    ensures r.id == s.id && r.source.data == s.source.data && r.file.data == s.file.data
    ensures r.source.fingerprint == s.source.fingerprint && r.file.fingerprint == s.file.fingerprint
  {
    s.(source := ResetCell(s.source), file := ResetCell(s.file))
  }

  /**
    The processing `FileSlot::source` applies: decode, then either replace
    the text of the previous source or create a new one for the slot's file.
   */
  function ParseSource(id: FileId): (seq<Byte>, Option<Source>) -> FileResult<Source> {
    (data: seq<Byte>, previous: Option<Source>) =>
      match DecodeUtf8(data)
      case Err(e) => Err(e)
      case Ok(text) =>
        match previous
        case Some(p) => Ok(p.(text := text))
        case None => Ok(Source(id, text))
  }

  /** The processing `FileSlot::file` applies: the bytes as they are. */
  function RawBytes(): (seq<Byte>, Option<seq<Byte>>) -> FileResult<seq<Byte>> {
    (data: seq<Byte>, previous: Option<seq<Byte>>) => Ok(data)
  }

  /** `FileSlot::source`. */
  function SlotSource(s: FileSlot, load: FileResult<seq<Byte>>, hash: Hasher): (r: (FileSlot, FileResult<Source>))
    ensures r.0 == s.(source := r.0.source) && r.0.source.accessed
    ensures r.1.Ok? ==> r.1.value.id == s.id || (s.source.data.Some? && s.source.data.value.Ok?)
  {
    var l := GetOrInit(s.source, load, hash, ParseSource(s.id));
    (s.(source := l.cell), l.value)
  }

  /** `FileSlot::file`. */
  function SlotFile(s: FileSlot, load: FileResult<seq<Byte>>, hash: Hasher): (r: (FileSlot, FileResult<seq<Byte>>))
    ensures r.0 == s.(file := r.0.file) && r.0.file.accessed
    ensures !s.file.accessed && (hash(load) != s.file.fingerprint || s.file.data.None?) ==> r.1 == load
  {
    var l := GetOrInit(s.file, load, hash, RawBytes());
    (s.(file := l.cell), l.value)
  }

  /**
    A fresh slot decodes what it reads: an ill-formed file is an
    `InvalidUtf8` error and a well-formed one becomes that file's source.
   */
  lemma FreshSource(id: FileId, bytes: seq<Byte>, hash: Hasher)
    ensures var r := SlotSource(NewSlot(id), Ok(bytes), hash).1;
      && (r.Ok? <==> WellFormed(StripBom(bytes)))
      && (r.Ok? ==> r.value == Source(id, StripBom(bytes)))
      && (r.Err? ==> r.error == InvalidUtf8)
  {
  }

  // ---------------------------------------------------------------------------
  // SystemWorld: the slots and the recorded dependencies

  /** The part of `SystemWorld` that changes while compiling `mainId`. */
  datatype World = World(mainId: FileId, slots: map<FileId, FileSlot>, dependencies: set<FileId>)

  /** `SystemWorld::new`: no dependency recorded yet. */
  function NewWorld(mainId: FileId, slots: map<FileId, FileSlot>): (w: World)
    ensures w.mainId == mainId && w.slots == slots && w.dependencies == {}
  {
    World(mainId, slots, {})
  }

  /** `slots.entry(id).or_insert_with(|| FileSlot::new(id))`. */
  function SlotOf(w: World, id: FileId): FileSlot {
    if id in w.slots then w.slots[id] else NewSlot(id)
  }

  /** Every file but the main one is recorded when it is read. */
  function Record(w: World, id: FileId): (r: World)
    ensures r.mainId == w.mainId && r.slots == w.slots
    ensures forall d :: d in r.dependencies <==> d in w.dependencies || (d == id && id != w.mainId)
  {
    if id != w.mainId then w.(dependencies := w.dependencies + {id}) else w
  }

  /** `World::source`. */
  function WorldSource(w: World, id: FileId, load: FileResult<seq<Byte>>, hash: Hasher): (r: (World, FileResult<Source>))
    ensures r.0.mainId == w.mainId && r.0.slots.Keys == w.slots.Keys + {id}
    ensures r.0.dependencies == Record(w, id).dependencies
  {
    var (slot, value) := SlotSource(SlotOf(w, id), load, hash);
    var v := Record(w, id);
    (v.(slots := v.slots[id := slot]), value)
  }

  /** `World::file`. */
  function WorldFile(w: World, id: FileId, load: FileResult<seq<Byte>>, hash: Hasher): (r: (World, FileResult<seq<Byte>>))
    ensures r.0.mainId == w.mainId && r.0.slots.Keys == w.slots.Keys + {id}
    ensures r.0.dependencies == Record(w, id).dependencies
  {
    var (slot, value) := SlotFile(SlotOf(w, id), load, hash);
    var v := Record(w, id);
    (v.(slots := v.slots[id := slot]), value)
  }

  /** One read the compiler makes: of a source file or of raw bytes. */
  datatype Access = ReadSource(id: FileId) | ReadFile(id: FileId)

  function AccessedId(a: Access): FileId {
    match a
    case ReadSource(id) => id
    case ReadFile(id) => id
  }

  /** The reads of one compilation, in order; `read` says what each file holds. */
  function Compile(w: World, accesses: seq<Access>, read: FileId -> FileResult<seq<Byte>>, hash: Hasher): (r: World)
    ensures r.mainId == w.mainId
    ensures forall id :: id in r.slots <==> id in w.slots || exists k :: 0 <= k < |accesses| && AccessedId(accesses[k]) == id
    decreases |accesses|
  {
    if accesses == [] then w
    else
      var n := |accesses| - 1;
      var p := Compile(w, accesses[..n], read, hash);
      var a := accesses[n];
      var id := AccessedId(a);
      assert forall k :: 0 <= k < n ==> accesses[..n][k] == accesses[k];
      match a
      case ReadSource(_) => WorldSource(p, id, read(id), hash).0
      case ReadFile(_) => WorldFile(p, id, read(id), hash).0
  }

  /**
    The dependencies a compilation records are exactly the files it read,
    other than the main file.
   */
  lemma {:induction false} CompileDependencies(w: World, accesses: seq<Access>,
                                               read: FileId -> FileResult<seq<Byte>>, hash: Hasher)
    ensures forall d :: d in Compile(w, accesses, read, hash).dependencies <==>
      d in w.dependencies ||
      (d != w.mainId && exists k :: 0 <= k < |accesses| && AccessedId(accesses[k]) == d)
    decreases |accesses|
  {
    if accesses != [] {
      var n := |accesses| - 1;
      var p := Compile(w, accesses[..n], read, hash);
      CompileDependencies(w, accesses[..n], read, hash);
      assert Compile(w, accesses, read, hash).dependencies == Record(p, AccessedId(accesses[n])).dependencies;
      forall d
        ensures d in Compile(w, accesses, read, hash).dependencies <==>
          d in w.dependencies || (d != w.mainId && exists k :: 0 <= k < |accesses| && AccessedId(accesses[k]) == d)
      {
        ReadSplit(accesses, d);
      }
    }
  }

  /** A file is read by a sequence of accesses iff by all but the last, or by the last. */
  lemma ReadSplit(accesses: seq<Access>, d: FileId)
    requires accesses != []
    ensures var n := |accesses| - 1;
      (exists k :: 0 <= k < |accesses| && AccessedId(accesses[k]) == d) <==>
      (exists k :: 0 <= k < n && AccessedId(accesses[..n][k]) == d) || AccessedId(accesses[n]) == d
  {
    var n := |accesses| - 1;
    if exists k :: 0 <= k < |accesses| && AccessedId(accesses[k]) == d {
      var k :| 0 <= k < |accesses| && AccessedId(accesses[k]) == d;
      if k < n {
        assert accesses[..n][k] == accesses[k];
      }
    }
    if exists k :: 0 <= k < n && AccessedId(accesses[..n][k]) == d {
      var k :| 0 <= k < n && AccessedId(accesses[..n][k]) == d;
      assert accesses[..n][k] == accesses[k];
    }
  }

  /** `into_dependencies`: the recorded set, leaving none behind. */
  function IntoDependencies(w: World): (r: (World, set<FileId>))
    ensures r.1 == w.dependencies && r.0.dependencies == {}
    ensures r.0 == w.(dependencies := {})
  {
    (w.(dependencies := {}), w.dependencies)
  }

  /** The main file is never its own dependency. */
  lemma MainNotADependency(mainId: FileId, slots: map<FileId, FileSlot>, accesses: seq<Access>,
                           read: FileId -> FileResult<seq<Byte>>, hash: Hasher)
    ensures mainId !in IntoDependencies(Compile(NewWorld(mainId, slots), accesses, read, hash)).1
  {
    CompileDependencies(NewWorld(mainId, slots), accesses, read, hash);
  }
}
