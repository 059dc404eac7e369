/** `run_receiver` (`src/transfer.rs`) on a file system: the loop, the clean-up and the rename. */
module RunReceiver {
  import opened Common
  import opened Chunk
  import opened Done
  import opened Receive

  class Disk {
    var files: map<string, bytes>

    constructor (files: map<string, bytes>)
      ensures this.files == files
    {
      this.files := files;
    }
  }

  /** The name written to until the file is complete. */
  function PartPath(dest: string): string { dest + ".part" }

  /** A name that is not its own part file, so nothing but a completed receive can touch it. */
  lemma PartPathIsOther(dest: string)
    ensures PartPath(dest) != dest
  {}

  // ---------- How the source spells the part name

  /** Position of the last dot, if any. */
  function LastDot(name: string): Option<nat>
    ensures LastDot(name).Some? ==> LastDot(name).value < |name| && name[LastDot(name).value] == '.'
  {
    if name == "" then None
    else if name[|name| - 1] == '.' then Some(|name| - 1)
    else LastDot(name[..|name| - 1])
  }

  /** Rust's `Path::file_stem` of a file name: up to its last dot, unless that is its first character. */
  function FileStem(name: string): string {
    match LastDot(name) case None => name case Some(k) => if k == 0 then name else name[..k]
  }

  /** Rust's `Path::extension` of a file name: after that dot. */
  function Extension(name: string): Option<string> {
    match LastDot(name) case None => None case Some(k) => if k == 0 then None else Some(name[k + 1..])
  }

  /** Rust's `Path::with_extension`. */
  function WithExtension(name: string, extension: string): string {
    FileStem(name) + (if extension == "" then "" else "." + extension)
  }

  /** Extending the extension appends to the name, whether or not it has one. `..` is no file name. */
  lemma PartPathExtends(dest: string)
    requires dest != "" && dest != "." && dest != ".."
    ensures PartPath(dest) == WithExtension(dest, match Extension(dest) case Some(e) => e + ".part" case None => "part")
  {
    var k := LastDot(dest);
    if k.Some? && k.value > 0 {
      assert dest == dest[..k.value] + "." + dest[k.value + 1..];
    }
  }

  /** An open file: a name on a disk and a position. */
  class OutFile {
    const disk: Disk
    const path: string
    var cursor: nat

    /** `File::create` truncates. */
    constructor (disk: Disk, path: string)
      modifies disk
      ensures this.disk == disk && this.path == path && cursor == 0
      ensures disk.files == old(disk.files)[path := []]
    {
      this.disk, this.path, this.cursor := disk, path, 0;
      new;
      disk.files := disk.files[path := []];
    }

    method SetLen(n: nat)
      requires path in disk.files && disk.files[path] == []
      modifies disk
      ensures disk.files == old(disk.files)[path := Zeros(n)]
    {
      disk.files := disk.files[path := Zeros(n)];
    }

    method Seek(at: nat)
      modifies this
      ensures cursor == at
    {
      cursor := at;
    }

    method WriteAll(text: bytes)
      requires path in disk.files && cursor <= |disk.files[path]|
      modifies this, disk
      ensures disk.files == old(disk.files)[path := WriteAt(old(disk.files)[path], old(cursor), text)]
      ensures cursor == old(cursor) + |text|
    {
      disk.files := disk.files[path := WriteAt(disk.files[path], cursor, text)];
      cursor := cursor + |text|;
    }
  }

  /** The result of the loop when the messages `inbound` arrive and then the channel closes or stalls. */
  function LoopResult(s: Session, inbound: seq<Message>, closes: bool): Result<State, Error> {
    match After(s, inbound)
    case Complete(st) => Ok(st)
    case Failed(e) => Err(e)
    case More(_) => if closes then Err(ChannelClosed) else Err(Stalled)
  }

  /** The body of the loop for a binary message; a disk fault can only strike once the chunk is accepted. */
  method TakeChunk(s: Session, out: OutFile, st: State, data: bytes, diskOk: bool) returns (o: Outcome)
    requires Consistent(s, st)
    requires out.path in out.disk.files && out.disk.files[out.path] == st.file
    requires s.total == None ==> out.cursor == |st.file|
    modifies out, out.disk
    ensures o == OnBinary(s, st, data) || (o == Failed(DiskFailed) && !diskOk)
    ensures o.More? ==>
              && out.disk.files == old(out.disk.files)[out.path := o.state.file]
              && (s.total == None ==> out.cursor == |o.state.file|)
    ensures o.Failed? ==> out.disk.files == old(out.disk.files)
    ensures !o.Complete?
  {
    var parsed := ParseChunkMessage(data);
    if parsed == None {
      return Failed(ShortMessage);
    }
    var (i, encrypted) := parsed.value;
    var expected := ExpectedLen(s, st, i, encrypted);
    if expected.Err? {
      return Failed(expected.error);
    }
    var length := expected.value;
    if |encrypted| != length + NONCE_LEN + TAG_LEN {
      return Failed(BadLength);
    }
    if st.got + length > MAX_MESSAGE_SIZE {
      return Failed(TooLarge);
    }
    var text := DecryptChunk(s.aead, s.key, encrypted, i);
    if text == None {
      return Failed(NotAuthentic);
    }
    if |text.value| != length {
      return Failed(BadLength);
    }
    if !diskOk {
      return Failed(DiskFailed);
    }
    var marks := st.marks;
    if s.total.Some? {
      ChunkBounds(i, s.total.value);
      out.Seek(i * CHUNK_SIZE);
      marks := marks[i := true];
    }
    assert s.total == None ==> WriteAt(st.file, |st.file|, text.value) == st.file + text.value;
    out.WriteAll(text.value);
    return More(State(out.disk.files[out.path], marks, st.count + 1, st.got + length,
                      if s.total.Some? then st.previous else Some(length)));
  }

  lemma TextEnds(s: Session, st: State, text: string)
    ensures OnText(s, st, text).Failed? || OnText(s, st, text) == Complete(st)
  {}

  /** The receive loop: it leaves the part file holding what the loop's state says. */
  method ReceiveLoop(s: Session, out: OutFile, inbound: seq<Message>, closes: bool, diskOk: nat -> bool)
    returns (r: Result<State, Error>)
    requires Startable(s) && out.cursor == 0
    requires out.path in out.disk.files && out.disk.files[out.path] == Start(s).file
    modifies out, out.disk
    ensures r == LoopResult(s, inbound, closes) || (r == Err(DiskFailed) && exists k :: !diskOk(k))
    ensures out.path in out.disk.files
    ensures out.disk.files == old(out.disk.files)[out.path := out.disk.files[out.path]]
    ensures r.Ok? ==> out.disk.files[out.path] == r.value.file
  {
    hide OnBinary; hide OnText;
    var st := Start(s);
    var k := 0;
    assert inbound[..0] == [];
    while k < |inbound|
      invariant k <= |inbound|
      invariant After(s, inbound[..k]) == More(st)
      invariant out.path in out.disk.files && out.disk.files[out.path] == st.file
      invariant out.disk.files == old(out.disk.files)[out.path := st.file]
      invariant s.total == None ==> out.cursor == |st.file|
    {
      var m := inbound[k];
      assert inbound[..k + 1][..k] == inbound[..k] && inbound[..k + 1][k] == m;
      assert After(s, inbound[..k + 1]) == On(s, st, m);
      AfterEnds(s, inbound, k + 1);
      match m {
        case Text(text) =>
          TextEnds(s, st, text);
          match OnText(s, st, text) {
            case Failed(e) => return Err(e);
            case _ => return Ok(st);
          }
        case Binary(data) =>
          var outcome := TakeChunk(s, out, st, data, diskOk(k));
          if outcome.Failed? {
            return Err(outcome.error);
          }
          st := outcome.state;
      }
      k := k + 1;
    }
    assert inbound[..k] == inbound;
    return if closes then Err(ChannelClosed) else Err(Stalled);
  }

  /** Which operations on the part file outside the loop succeed; `persist` is flush and sync. */
  datatype Storage = Storage(create: bool, setLen: bool, persist: bool, rename: bool)

  predicate Opens(s: Session, storage: Storage) {
    Startable(s) && storage.create && (s.total.Some? ==> storage.setLen)
  }

  lemma OpensExactly(s: Session, storage: Storage)
    ensures Opens(s, storage) <==>
            && (s.total.Some? ==> s.total.value <= 65536 * 131072)
            && storage.create && (s.total == None || storage.setLen)
  {}

  /** An error after the loop has completed. */
  predicate AfterLoop(e: Error) {
    e == SyncFailed || e == RenameFailed || e == AckFailed
  }

  /** A run puts the completed file in place of `dest`, or fails: in the loop, which removes the part file, or when
      opening or persisting it, which does not. Nothing else is ever touched. Disk faults inside the loop are at the
      points where `diskOk` is false. */
  method Run(s: Session, disk: Disk, dest: string, inbound: seq<Message>, closes: bool,
             storage: Storage, diskOk: nat -> bool, ackOk: bool)
    returns (r: Result<nat, Error>)
    modifies disk
    ensures !Startable(s) ==> r == Err(TooManyChunks) && disk.files == old(disk.files)
    ensures Startable(s) && !storage.create ==> r == Err(CreateFailed) && disk.files == old(disk.files)
    ensures Startable(s) && storage.create && s.total.Some? && !storage.setLen ==>
              r == Err(SetLenFailed) && disk.files == old(disk.files)[PartPath(dest) := []]
    ensures Opens(s, storage) && (r.Ok? || AfterLoop(r.error)) ==>
              && After(s, inbound).Complete?
              && r == (if !storage.persist then Err(SyncFailed) else if !storage.rename then Err(RenameFailed)
                       else if !ackOk then Err(AckFailed) else Ok(After(s, inbound).state.got))
              && var file := After(s, inbound).state.file;
                 disk.files == if storage.persist && storage.rename then (old(disk.files) - {PartPath(dest)})[dest := file]
                               else old(disk.files)[PartPath(dest) := file]
    ensures Opens(s, storage) && r.Err? && !AfterLoop(r.error) ==>
              disk.files == old(disk.files) - {PartPath(dest)}
    ensures r.Err? && r.error != AckFailed ==>
              (dest in disk.files <==> dest in old(disk.files)) && (dest in disk.files ==> disk.files[dest] == old(disk.files)[dest])
    ensures Opens(s, storage) && (forall k :: diskOk(k)) ==>
              && (After(s, inbound).Complete? ==> r.Ok? || AfterLoop(r.error))
              && (After(s, inbound).Failed? ==> r == Err(After(s, inbound).error))
              && (After(s, inbound).More? ==> r == if closes then Err(ChannelClosed) else Err(Stalled))
  {
    PartPathIsOther(dest);
    if s.total.Some? && ChunkCount(s.total.value) > MAX_CHUNKS {
      return Err(TooManyChunks);
    }
    if !storage.create {
      return Err(CreateFailed);
    }
    var part := PartPath(dest);
    var out := new OutFile(disk, part);
    if s.total.Some? {
      if !storage.setLen {
        return Err(SetLenFailed);
      }
      out.SetLen(s.total.value);
    }
    var start := old(disk.files)[part := Start(s).file];
    assert disk.files == start && start - {part} == old(disk.files) - {part};
    hide After, Start, Zeros, ChunkCount;
    var result := ReceiveLoop(s, out, inbound, closes, diskOk);
    NeverAfterLoop(s, inbound);
    MapFacts(old(disk.files), part, Start(s).file, disk.files[part]);
    if result.Err? {
      disk.files := disk.files - {part};
      return Err(result.error);
    }
    if !storage.persist {
      return Err(SyncFailed);
    }
    if !storage.rename {
      return Err(RenameFailed);
    }
    var file := disk.files[part];
    disk.files := (disk.files - {part})[dest := file];
    return if ackOk then Ok(result.value.got) else Err(AckFailed);
  }

  lemma MapFacts(m: map<string, bytes>, k: string, x: bytes, y: bytes)
    ensures m[k := x][k := y] == m[k := y]
    ensures m[k := x] - {k} == m - {k} == m[k := y] - {k}
  {}

  lemma {:induction false} NeverAfterLoop(s: Session, ms: seq<Message>)
    ensures After(s, ms).Failed? ==> !AfterLoop(After(s, ms).error)
  {
    if ms != [] {
      NeverAfterLoop(s, ms[..|ms| - 1]);
    }
  }
}
