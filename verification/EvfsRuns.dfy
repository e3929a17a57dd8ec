/** Whole runs of the file system against a model in which every entry is a byte string and
    free space is a number. */
module EvfsRuns {
  import opened Bytes
  import opened EvfsVolume
  import opened EvfsChain
  import opened EvfsShort
  import opened EvfsEntries
  import opened EvfsSteps
  import opened EvfsCreate
  import opened EvfsFiles
  import opened EvfsOps

  /** An entry: its name, filled up to KEY bytes, and its data; and the size it has on record,
      which is more than that after a write for which there were not clusters enough. */
  datatype File = File(bytes: seq<byte>, size: nat)

  /** Every entry by its id, and how many more clusters can be had. */
  datatype Model = Model(files: map<nat, File>, spare: nat)

  /** The chain of entry `h` lays out exactly the bytes of `x`. */
  ghost predicate Laid(fs: FileSystem, h: nat, x: File) {
    && h in fs.elems && Lacks(fs.vol.seg, |x.bytes|, x.size) && x.size < TOP_BIT
    && ChainOf(fs, h) == Sized(fs.vol.seg, x.bytes, x.size)
  }

  ghost predicate HasFiles(fs: FileSystem, files: map<nat, File>) {
    match fs
    case Fs(_, _, elems) =>
      && (forall h :: h in files <==> h in elems)
      && (forall h {:trigger Laid(fs, h, files[h])} :: h in files ==> Laid(fs, h, files[h]))
  }

  /** The entries are those of the model, and so is the space. */
  ghost predicate Holds(fs: FileSystem, m: Model) {
    match m
    case Model(files, spare) => HasFiles(fs, files) && Capacity(fs.vol) == spare
  }

  // ---------- the same on the model ----------

  function Making(m: Model, id: nat, key: seq<byte>): Model
    requires m.spare > 0
  {
    Model(m.files[id := File(key, |key|)], m.spare - 1)
  }

  /** The elements that entry `id` has or can get. */
  function Reach(seg: nat, m: Model, id: nat): nat
    requires seg > 0 && id in m.files
  {
    m.spare + ElementCount(seg, |m.files[id].bytes|)
  }

  /** An entry gives back its head cluster and its elements. */
  function Dropping(seg: nat, m: Model, id: nat): Model
    requires seg > 0 && id in m.files
  {
    Model(m.files - {id}, Reach(seg, m, id) + 1)
  }

  /** There are clusters enough for entry `id` to have the bytes `t`. */
  predicate Room(seg: nat, m: Model, id: nat, t: seq<byte>)
    requires seg > 0 && id in m.files
  {
    ElementCount(seg, |t|) <= Reach(seg, m, id)
  }

  function Storing(seg: nat, m: Model, id: nat, y: File): Model
    requires seg > 0 && id in m.files && Room(seg, m, id, y.bytes)
  {
    Model(m.files[id := y], Reach(seg, m, id) - ElementCount(seg, |y.bytes|))
  }

  /** What a write that fits makes of entry `id` and reports: the patched bytes and their number,
      cut off behind the last cluster that can be had. */
  function Outcome(seg: nat, m: Model, id: nat, data: seq<byte>, off: nat): (r: (File, nat))
    requires seg > 0 && id in m.files
    ensures Room(seg, m, id, r.0.bytes)
  {
    var x, at := m.files[id], KEY + off;
    var t, size, cut := Patched(x.bytes, at, data), Max(at + |data|, x.size), seg + Span(seg, Reach(seg, m, id));
    if Room(seg, m, id, t) then (File(t, size), |data|)
    else
      OutOfRoom(seg, |t|, Reach(seg, m, id));
      (File(t[..cut], size), Max(0, cut - at))
  }

  lemma {:induction false} OutOfRoom(seg: nat, n: nat, k: nat)
    requires seg > 0 && k < ElementCount(seg, n)
    ensures seg + Span(seg, k) < n && ElementCount(seg, seg + Span(seg, k)) == k
  {
    PartsNeeded(seg, n - Min(n, seg), k);
    SpanNeeds(seg, k);
  }

  /** The outcome when there are not clusters enough. */
  lemma {:induction false} OutcomeCut(seg: nat, m: Model, id: nat, data: seq<byte>, off: nat)
    requires seg > KEY && id in m.files && Lacks(seg, |m.files[id].bytes|, m.files[id].size)
    requires !Room(seg, m, id, Patched(m.files[id].bytes, KEY + off, data))
    ensures var x, at, cut := m.files[id], KEY + off, seg + Span(seg, Reach(seg, m, id));
      var t, size := Patched(x.bytes, at, data), Max(at + |data|, x.size);
      && seg <= cut < |t| <= size && Outcome(seg, m, id, data, off) == (File(t[..cut], size), Max(0, cut - at))
  {
    OutOfRoom(seg, |Patched(m.files[id].bytes, KEY + off, data)|, Reach(seg, m, id));
  }

  // ---------- making and deleting entries ----------

  lemma {:induction false} EmptyLayout(seg: nat, key: seq<byte>)
    requires |key| == KEY < seg
    ensures Layout(seg, key) == Chain(KEY, Padded(seg, key), Nil)
  {
    assert key[..KEY] == key && key[KEY..] == [];
  }

  lemma {:induction false} CreatedHolds(fs: FileSystem, w: SoundVolume, id: nat, key: seq<byte>, m: Model)
    requires Holds(fs, m) && Grown(fs.vol, w, [id]) && id < |w.headers| && |key| == KEY
    requires Capacity(w) + 1 == Capacity(fs.vol)
    ensures FsInv(Created(fs, w, id, Padded(w.seg, key))) && id !in m.files
    ensures Holds(Created(fs, w, id, Padded(w.seg, key)), Making(m, id, key))
  {
    var bytes := Padded(w.seg, key);
    FreshId(fs, w, id);
    CreatedInv(fs, w, id, bytes);
    var fs': FileSystem := Created(fs, w, id, bytes);
    EmptyLayout(w.seg, key);
    var files := m.files[id := File(key, KEY)];
    forall g | g in files ensures Laid(fs', g, files[g]) {
      CreatedReads(fs, w, id, bytes, g);
      assert g != id ==> Laid(fs, g, m.files[g]);
    }
    assert forall g :: g in files <==> g in fs'.elems;
  }

  lemma {:induction false} KeyOver(seg: nat, key: seq<byte>)
    requires |key| <= seg
    ensures Overlay(Zeros(seg), 0, key) == Padded(seg, key)
  {
    assert Zeros(seg)[|key|..] == Zeros(seg - |key|);
  }

  /** Sets up the head cluster of a new entry. */
  method SetUp(f: Files, id: nat, key: seq<byte>)
    requires f.views.OnDisk() && 0 < id < |f.views.headers| && |key| == KEY < f.views.seg
    requires f.views.headers[id] == BLANK && f.views.data[id] == Zeros(f.views.seg)
    modifies f.views`headers, f.views`data, f.views`disk, f.views`asked
    ensures f.views.OnDisk() && f.views.headers == old(f.views.headers)[id := HeadHeader(id)]
    ensures f.views.data == old(f.views.data)[id := Padded(f.views.seg, key)]
  {
    KeyOver(f.views.seg, key);
    f.views.WriteHead(id, Header(0, 0, id));
    f.views.WriteHead(id, f.views.headers[id].(size := Marked(KEY)));
    var _ := f.views.WriteUserdata(id, key, 0);
  }

  method Enlist(f: Files, id: nat, key: seq<byte>, ghost fs: FileSystem, ghost w: SoundVolume)
    requires f.views.OnDisk() && f.views.Counted() && 0 < id < |f.views.headers| && |key| == KEY < f.views.seg
    requires f.views.headers[id] == BLANK && f.views.data[id] == Zeros(f.views.seg)
    requires f.views.Vol() == w && f.heads == fs.heads && f.elems == fs.elems
    modifies f`heads, f`elems, f.views`headers, f.views`data, f.views`disk, f.views`asked
    ensures f.views.OnDisk() && f.views.Counted() && f.heads == old(f.heads) + [id]
    ensures f.State() == Created(fs, w, id, Padded(w.seg, key))
  {
    SetUp(f, id, key);
    f.heads, f.elems := f.heads + [id], f.elems[id := []];
  }

  /** evfs_entries_create_one, and evfs_entries_close_one for the reference it leaves: the id of
      a new, empty entry, or 0 if no cluster is to be had. */
  method CreateOne(f: Files, key: seq<byte>, ghost m: Model) returns (id: nat)
    requires f.Valid() && Holds(f.State(), m) && |key| == KEY
    modifies f, f.views
    ensures f.Valid() && (id > 0 <==> m.spare > 0) && (id > 0 ==> id !in m.files && f.heads == old(f.heads) + [id])
    ensures Holds(f.State(), if id > 0 then Making(m, id, key) else m)
  {
    ghost var fs: FileSystem := f.State();
    AcquireGrows(fs.vol);
    AcquireCapacity(fs.vol);
    id := f.views.AcquireIdle();
    if id > 0 {
      ghost var w: SoundVolume := f.views.Vol();
      assert id in [id];
      CreatedHolds(fs, w, id, key, m);
      Enlist(f, id, key, fs, w);
    }
  }

  lemma {:induction false} LaidLength(fs: FileSystem, h: nat, m: Model)
    requires Holds(fs, m) && h in fs.elems
    ensures h in m.files
      && Length(ChainOf(fs, h).elems) == |fs.elems[h]| == ElementCount(fs.vol.seg, |m.files[h].bytes|)
  {
    assert Laid(fs, h, m.files[h]);
    LayoutLength(fs.vol.seg, m.files[h].bytes);
    ElemsLength(fs, h);
  }

  lemma {:induction false} DeletedFiles(fs: FileSystem, w: SoundVolume, h: nat, files: map<nat, File>)
    requires HasFiles(fs, files) && h in fs.elems && Released(fs.vol, w, ChainIds(fs, h)) && FsInv(Deleted(fs, w, h))
    ensures HasFiles(Deleted(fs, w, h), files - {h})
  {
    var fs': FileSystem := Deleted(fs, w, h);
    var files' := files - {h};
    forall g | g in files' ensures Laid(fs', g, files'[g]) {
      DeletedReads(fs, w, h, g);
      assert Laid(fs, g, files[g]);
    }
    assert forall g :: g in files' <==> g in fs'.elems;
  }

  lemma {:induction false} DeletedHolds(fs: FileSystem, w: SoundVolume, h: nat, m: Model)
    requires Holds(fs, m) && h in fs.elems && Released(fs.vol, w, ChainIds(fs, h))
    ensures h in m.files && FsInv(Deleted(fs, w, h)) && Holds(Deleted(fs, w, h), Dropping(fs.vol.seg, m, h))
  {
    DeletedInv(fs, w, h);
    LaidLength(fs, h, m);
    DeletedFiles(fs, w, h, m.files);
  }

  /** evfs_entries_hard_delete of an entry that nobody holds: each of its clusters goes back
      to the idle list once, the elements in order and the head last. */
  method HardDelete(f: Files, h: nat, ghost m: Model)
    requires f.Valid() && Holds(f.State(), m) && h in f.elems
    modifies f, f.views
    ensures f.Valid() && f.heads == Without(old(f.heads), h)
    ensures f.views.idle == old(f.views.idle) + old(f.elems)[h] + [h]
    ensures h in m.files && Holds(f.State(), Dropping(f.views.seg, m, h))
  {
    ghost var fs: FileSystem := f.State();
    var ids := f.elems[h] + [h];
    assert fs.vol.idle + ids == fs.vol.idle + f.elems[h] + [h];
    f.heads, f.elems := Without(f.heads, h), f.elems - {h};
    FreeClusters(f, ids, fs, h);
    DeletedHolds(fs, f.views.Vol(), h, m);
  }

  /** The loop of __evfs_entries_free_head over the elements, and the head. */
  method FreeClusters(f: Files, ids: seq<nat>, ghost fs: FileSystem, ghost h: nat)
    requires f.views.OnDisk() && f.views.Counted() && f.views.Vol() == fs.vol
    requires h in fs.elems && ids == ChainIds(fs, h)
    modifies f.views
    ensures f.views.OnDisk() && f.views.Counted() && Sound(f.views.Vol()) && Released(fs.vol, f.views.Vol(), ids)
  {
    ChainIdsBusy(fs, h);
    ReleaseAllReleases(fs.vol, ids);
    f.views.GiveBack(ids);
  }

  // ---------- reading and writing ----------

  lemma {:induction false} StoredHolds(a: FileSystem, b: FileSystem, h: nat, c: Chain, ok: bool, m: Model, y: File)
    requires Holds(a, m) && h in a.elems && EntryWritten(a, b, h, c, ok)
    requires h in b.elems && Lacks(a.vol.seg, |y.bytes|, y.size) && y.size < TOP_BIT
    requires ChainOf(b, h) == Sized(a.vol.seg, y.bytes, y.size)
    ensures h in m.files && Room(a.vol.seg, m, h, y.bytes) && Holds(b, Storing(a.vol.seg, m, h, y))
  {
    LaidLength(a, h, m);
    LayoutLength(a.vol.seg, y.bytes);
    var files := m.files[h := y];
    forall g | g in files ensures Laid(b, g, files[g]) {
      assert Laid(a, g, m.files[g]);
    }
    assert forall g :: g in files <==> g in b.elems;
  }

  lemma {:induction false} StaysSized(seg: nat, x: File, at: nat, data: seq<byte>)
    requires Lacks(seg, |x.bytes|, x.size) && KEY <= at
    ensures Lacks(seg, |Patched(x.bytes, at, data)|, Max(at + |data|, x.size))
  {
  }

  lemma {:induction false} WholeHolds(a: FileSystem, b: FileSystem, h: nat, off: nat, data: seq<byte>, m: Model,
                                      y: File)
    requires Holds(a, m) && h in a.elems && h in m.files && data != [] && y.size < TOP_BIT
    requires Fits(a.vol.seg, |m.files[h].bytes|, off, |data|)
    requires y == File(Patched(m.files[h].bytes, KEY + off, data), Max(KEY + off + |data|, m.files[h].size))
    requires EntryWritten(a, b, h, Write(a.vol.seg, ChainOf(a, h), off, data).0, true)
    ensures Room(a.vol.seg, m, h, y.bytes) && Holds(b, Storing(a.vol.seg, m, h, y))
    ensures Write(a.vol.seg, ChainOf(a, h), off, data).1 == |data|
  {
    var seg, x := a.vol.seg, m.files[h];
    assert Laid(a, h, x);
    SizedWrite(seg, x.bytes, x.size, off, data);
    StaysSized(seg, x, KEY + off, data);
    StoredHolds(a, b, h, Write(seg, ChainOf(a, h), off, data).0, true, m, y);
  }

  /** The elements there are when clusters ran out. */
  lemma {:induction false} ShortReach(a: FileSystem, b: FileSystem, h: nat, off: nat, data: seq<byte>, m: Model)
    requires Holds(a, m) && h in a.elems && h in m.files && data != []
    requires Fits(a.vol.seg, |m.files[h].bytes|, off, |data|)
    requires EntryWritten(a, b, h, Write(a.vol.seg, ChainOf(a, h), off, data).0, false)
    ensures h in b.elems && Length(ChainOf(b, h).elems) == Reach(a.vol.seg, m, h)
    ensures Reach(a.vol.seg, m, h) < ElementCount(a.vol.seg, |Patched(m.files[h].bytes, KEY + off, data)|)
  {
    var seg, x := a.vol.seg, m.files[h];
    assert Laid(a, h, x);
    SizedWrite(seg, x.bytes, x.size, off, data);
    LaidLength(a, h, m);
    LayoutLength(seg, Patched(x.bytes, KEY + off, data));
  }

  lemma {:induction false} CutHolds(a: FileSystem, b: FileSystem, h: nat, c: Chain, m: Model, y: File)
    requires Holds(a, m) && h in a.elems && EntryWritten(a, b, h, c, false)
    requires Lacks(a.vol.seg, |y.bytes|, y.size) && y.size < TOP_BIT && h in b.elems
    requires c.(elems := Front(c.elems, Length(ChainOf(b, h).elems))) == Sized(a.vol.seg, y.bytes, y.size)
    ensures h in m.files && Room(a.vol.seg, m, h, y.bytes) && Holds(b, Storing(a.vol.seg, m, h, y))
  {
    StoredHolds(a, b, h, c, false, m, y);
  }

  lemma {:induction false} ShortOutcome(seg: nat, m: Model, id: nat, data: seq<byte>, off: nat)
    requires seg > KEY && id in m.files && Lacks(seg, |m.files[id].bytes|, m.files[id].size) && data != []
    requires Fits(seg, |m.files[id].bytes|, off, |data|)
    requires !Room(seg, m, id, Patched(m.files[id].bytes, KEY + off, data))
    ensures var (y, count) := Outcome(seg, m, id, data, off);
      var was, k := Sized(seg, m.files[id].bytes, m.files[id].size), Reach(seg, m, id);
      var c := Write(seg, was, off, data).0;
      && c.(elems := Front(c.elems, k)) == Sized(seg, y.bytes, y.size) && count == StoredBy(seg, was, off, data, k)
      && Lacks(seg, |y.bytes|, y.size) && y.size == Max(KEY + off + |data|, m.files[id].size)
  {
    ShortWrite(seg, m.files[id].bytes, m.files[id].size, off, data, Reach(seg, m, id));
    OutcomeCut(seg, m, id, data, off);
  }

  lemma {:induction false} ShortHolds(a: FileSystem, b: FileSystem, h: nat, off: nat, data: seq<byte>, m: Model)
    requires Holds(a, m) && h in a.elems && h in m.files && data != [] && KEY + off + |data| < TOP_BIT
    requires Fits(a.vol.seg, |m.files[h].bytes|, off, |data|)
    requires EntryWritten(a, b, h, Write(a.vol.seg, ChainOf(a, h), off, data).0, false)
    ensures var (y, count) := Outcome(a.vol.seg, m, h, data, off);
      && Holds(b, Storing(a.vol.seg, m, h, y)) && h in b.elems
      && count == StoredBy(a.vol.seg, ChainOf(a, h), off, data, Length(ChainOf(b, h).elems))
  {
    var seg, x, c := a.vol.seg, m.files[h], Write(a.vol.seg, ChainOf(a, h), off, data).0;
    assert Laid(a, h, x);
    ShortReach(a, b, h, off, data, m);
    ShortOutcome(seg, m, h, data, off);
    CutHolds(a, b, h, c, m, Outcome(seg, m, h, data, off).0);
  }

  /** What a write leaves is the outcome. */
  lemma {:induction false} OutcomeHolds(a: FileSystem, b: FileSystem, h: nat, off: nat, data: seq<byte>,
                                        n: nat, ok: bool, m: Model)
    requires Holds(a, m) && h in a.elems && h in m.files && data != [] && KEY + off + |data| < TOP_BIT
    requires Fits(a.vol.seg, |m.files[h].bytes|, off, |data|) && DidWrite(a, b, h, off, data, n, ok)
    ensures var (y, count) := Outcome(a.vol.seg, m, h, data, off); Holds(b, Storing(a.vol.seg, m, h, y)) && n == count
  {
    if ok {
      var x, at := m.files[h], KEY + off;
      assert Laid(a, h, x);
      WholeHolds(a, b, h, off, data, m, File(Patched(x.bytes, at, data), Max(at + |data|, x.size)));
    } else {
      ShortHolds(a, b, h, off, data, m);
    }
  }

  /** A write that fits makes of the entry what it would make of a file, as far as there are
      clusters for it, and reports the bytes that it has stored. */
  method WriteEntry(f: Files, h: nat, data: seq<byte>, off: nat, ghost m: Model) returns (n: nat)
    requires f.Valid() && Holds(f.State(), m) && h in f.elems && data != [] && KEY + off + |data| < TOP_BIT
    requires h in m.files && Fits(f.views.seg, |m.files[h].bytes|, off, |data|)
    modifies f`elems, f.views
    ensures f.Valid()
    ensures var (y, count) := Outcome(f.views.seg, m, h, data, off);
      Holds(f.State(), Storing(f.views.seg, m, h, y)) && n == count
  {
    ghost var fs: FileSystem := f.State();
    var ok;
    n, ok := f.WriteData(h, data, off);
    OutcomeHolds(fs, f.State(), h, off, data, n, ok, m);
  }

  lemma {:induction false} PatchedInside(s: seq<byte>, at: nat, data: seq<byte>, n: nat)
    requires n <= |data|
    ensures Patched(s, at, data)[at..at + n] == data[..n]
  {
  }

  lemma {:induction false} SliceOfPatched(s: seq<byte>, off: nat, data: seq<byte>, cut: nat)
    requires |s| >= KEY && KEY <= cut <= |Patched(s, KEY + off, data)|
    ensures Slice(Patched(s, KEY + off, data)[..cut], off, |data|) == data[..Min(|data|, Max(0, cut - (KEY + off)))]
  {
    var t, at, n := Patched(s, KEY + off, data), KEY + off, Min(|data|, Max(0, cut - (KEY + off)));
    if n > 0 {
      PatchedInside(s, at, data, n);
      assert t[..cut][at..at + n] == t[at..at + n];
      SliceShift(t[..cut], at, KEY, at + n);
    }
  }

  lemma {:induction false} CutReadsBack(seg: nat, m: Model, id: nat, data: seq<byte>, off: nat)
    requires seg > KEY && id in m.files && Lacks(seg, |m.files[id].bytes|, m.files[id].size) && data != []
    requires !Room(seg, m, id, Patched(m.files[id].bytes, KEY + off, data))
    ensures var (y, n) := Outcome(seg, m, id, data, off);
      Lacks(seg, |y.bytes|, y.size) && n < |data| && Slice(y.bytes, off, |data|) == data[..n]
  {
    var x, k := m.files[id], Reach(seg, m, id);
    OutcomeCut(seg, m, id, data, off);
    PartsHold(seg, |x.bytes| - Min(|x.bytes|, seg), k);
    SliceOfPatched(x.bytes, off, data, seg + Span(seg, k));
  }

  /** What is reported is stored: it reads back from where it was written, and all of it is
      reported exactly when there are clusters enough. */
  lemma {:induction false} ReportedReadsBack(seg: nat, m: Model, id: nat, data: seq<byte>, off: nat)
    requires seg > KEY && id in m.files && Lacks(seg, |m.files[id].bytes|, m.files[id].size) && data != []
    ensures var (y, n) := Outcome(seg, m, id, data, off);
      && Lacks(seg, |y.bytes|, y.size) && n <= |data| && Slice(y.bytes, off, |data|) == data[..n]
      && (n == |data| <==> Room(seg, m, id, Patched(m.files[id].bytes, KEY + off, data)))
  {
    var x := m.files[id];
    var t := Patched(x.bytes, KEY + off, data);
    if Room(seg, m, id, t) {
      StaysSized(seg, x, KEY + off, data);
      SliceOfPatched(x.bytes, off, data, |t|);
      assert t[..|t|] == t;
    } else {
      CutReadsBack(seg, m, id, data, off);
    }
  }

  /** A write leaves the name and every byte outside its slice, puts zeros between the old end and
      its start, and records the size of the whole. */
  lemma {:induction false} RestUnchanged(seg: nat, m: Model, id: nat, data: seq<byte>, off: nat, i: nat)
    requires seg > KEY && id in m.files && Lacks(seg, |m.files[id].bytes|, m.files[id].size) && data != []
    ensures var x, y := m.files[id], Outcome(seg, m, id, data, off).0;
      && y.size == Max(KEY + off + |data|, x.size) && |y.bytes| >= KEY && y.bytes[..KEY] == x.bytes[..KEY]
      && (i < |y.bytes| && !(KEY + off <= i < KEY + off + |data|) ==>
        y.bytes[i] == if i < |x.bytes| then x.bytes[i] else 0)
  {
    var x := m.files[id];
    if !Room(seg, m, id, Patched(x.bytes, KEY + off, data)) {
      OutcomeCut(seg, m, id, data, off);
    }
  }

  /** A read returns the slice that it asks for of the bytes that are there. */
  method ReadEntry(f: Files, h: nat, off: nat, size: nat, ghost m: Model) returns (out: seq<byte>)
    requires f.Valid() && Holds(f.State(), m) && h in f.elems
    ensures h in m.files && |m.files[h].bytes| >= KEY && out == Slice(m.files[h].bytes, off, size)
  {
    ghost var x := m.files[h];
    assert Laid(f.State(), h, x);
    out := ReadData(f, h, off, size);
    SizedRead(f.views.seg, x.bytes, x.size, off, size);
  }

  // ---------- runs ----------

  datatype Call =
    | Make(key: seq<byte>)
    | Put(id: nat, data: seq<byte>, off: nat)
    | Get(id: nat, off: nat, size: nat)
    | Drop(id: nat)

  datatype Reply = Made(id: nat) | Stored(n: nat) | Data(bytes: seq<byte>)
    | Dropped | Invalid | NoEntry | Unfit | NoSpace

  /** Names fill KEY bytes, and sizes are positive 32-bit numbers. */
  predicate Admissible(call: Call) {
    match call
    case Make(key) => |key| == KEY
    case Put(_, data, off) => KEY + off + |data| < TOP_BIT
    case _ => true
  }

  /** `r` is a right answer to `call` on files with content `m`, and leaves them as `m'`. */
  ghost predicate Answers(seg: nat, m: Model, call: Call, r: Reply, m': Model)
    requires seg > 0
  {
    match call
    case Make(key) =>
      if m.spare == 0 then r == NoSpace && m' == m
      else r.Made? && r.id > 0 && r.id !in m.files && m' == Making(m, r.id, key)
    case Put(id, data, off) =>
      if data == [] then r == Invalid && m' == m
      else if id !in m.files then r == NoEntry && m' == m
      else if !Fits(seg, |m.files[id].bytes|, off, |data|) then r == Unfit && m' == m
      else
        var (y, n) := Outcome(seg, m, id, data, off);
        r == Stored(n) && m' == Storing(seg, m, id, y)
    case Get(id, off, size) =>
      m' == m &&
      if size == 0 then r == Invalid
      else if id !in m.files then r == NoEntry
      else |m.files[id].bytes| >= KEY && r == Data(Slice(m.files[id].bytes, off, size))
    case Drop(id) =>
      if id in m.files then r == Dropped && m' == Dropping(seg, m, id) else r == NoEntry && m' == m
  }

  /** The replies answer the first calls of the run one after the other. */
  ghost predicate Answered(seg: nat, m: Model, calls: seq<Call>, replies: seq<Reply>, m': Model)
    requires seg > 0
    decreases |replies|
  {
    |replies| <= |calls| &&
    if replies == [] then m' == m
    else
      var k := |replies| - 1;
      exists mid: Model :: Answered(seg, m, calls, replies[..k], mid) && Answers(seg, mid, calls[k], replies[k], m')
  }

  /** One call by a client that keeps account of what it has stored, in `m`, and looks there
      whether a write fits before it makes it. */
  method Do(f: Files, call: Call, m: Model) returns (r: Reply, m': Model)
    requires f.Valid() && Holds(f.State(), m) && Admissible(call)
    modifies f, f.views
    ensures f.Valid() && Holds(f.State(), m') && Answers(f.views.seg, m, call, r, m')
  {
    m', r := m, NoEntry;
    match call {
      case Make(key) =>
        var id := CreateOne(f, key, m);
        r := if id > 0 then Made(id) else NoSpace;
        m' := if id > 0 then Making(m, id, key) else m;
      case Put(id, data, off) =>
        if data == [] {
          r := Invalid;
        } else if id in f.elems {
          r, m' := TryPut(f, id, data, off, m);
        }
      case Get(id, off, size) =>
        if size == 0 {
          r := Invalid;
        } else if id in f.elems {
          var out := ReadEntry(f, id, off, size, m);
          r := Data(out);
        }
      case Drop(id) =>
        if id in f.elems {
          HardDelete(f, id, m);
          r, m' := Dropped, Dropping(f.views.seg, m, id);
        }
    }
  }

  method TryPut(f: Files, id: nat, data: seq<byte>, off: nat, m: Model) returns (r: Reply, m': Model)
    requires f.Valid() && Holds(f.State(), m) && Admissible(Put(id, data, off)) && id in f.elems && data != []
    modifies f, f.views
    ensures f.Valid() && Holds(f.State(), m') && Answers(f.views.seg, m, Put(id, data, off), r, m')
  {
    assert Laid(f.State(), id, m.files[id]);
    if Fits(f.views.seg, |m.files[id].bytes|, off, |data|) {
      var n := WriteEntry(f, id, data, off, m);
      r, m' := Stored(n), Storing(f.views.seg, m, id, Outcome(f.views.seg, m, id, data, off).0);
    } else {
      r, m' := Unfit, m;
    }
  }

  /** Every run behaves as on plain files with so many clusters to spare, of which a write takes
      what it needs, or what there is. */
  method Run(f: Files, calls: seq<Call>, m: Model) returns (replies: seq<Reply>, m': Model)
    requires f.Valid() && Holds(f.State(), m) && forall i :: 0 <= i < |calls| ==> Admissible(calls[i])
    modifies f, f.views
    ensures f.Valid() && |replies| == |calls|
    ensures Answered(f.views.seg, m, calls, replies, m') && Holds(f.State(), m')
  {
    replies, m' := [], m;
    while |replies| < |calls|
      invariant f.Valid() && |replies| <= |calls| && Holds(f.State(), m')
      invariant Answered(f.views.seg, m, calls, replies, m')
      decreases |calls| - |replies|
    {
      var k := |replies|;
      ghost var mid := m';
      var r;
      r, m' := Do(f, calls[k], m');
      assert (replies + [r])[..k] == replies;
      replies := replies + [r];
      assert Answered(f.views.seg, m, calls, replies[..k], mid) && Answers(f.views.seg, mid, calls[k], replies[k], m');
    }
  }
}
