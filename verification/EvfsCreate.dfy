/** Making and deleting entries: what each does to the clusters and to the other entries. */
module EvfsCreate {
  import opened Bytes
  import opened EvfsVolume
  import opened EvfsChain
  import opened EvfsEntries
  import opened EvfsSteps

  // ---------- a new entry ----------

  /** The header of a new head cluster. */
  function HeadHeader(id: nat): Header { Header(Marked(KEY), 0, id) }

  function Created(fs: Fs, w: Volume, id: nat, key: seq<byte>): Fs
    requires id < |w.headers| && id < |w.data|
  {
    Fs(w.(headers := w.headers[id := HeadHeader(id)], data := w.data[id := key]), fs.heads + [id], fs.elems[id := []])
  }

  lemma {:induction false} FreshId(fs: FileSystem, w: SoundVolume, id: nat)
    requires Grown(fs.vol, w, [id])
    ensures 0 < id < |w.headers| && id !in fs.elems && id !in fs.heads && id in w.busy
    ensures forall g :: g in fs.elems ==> id !in fs.elems[g] && id != g
  {
    assert id in [id];
    forall g | g in fs.elems ensures id !in fs.elems[g] && id != g {
      FreshIsForeign(fs, w, [id], id, g);
    }
  }

  lemma {:induction false} CreatedSound(w: SoundVolume, id: nat, key: seq<byte>)
    requires id in w.busy && |key| == w.seg
    ensures Sound(w.(headers := w.headers[id := HeadHeader(id)], data := w.data[id := key]))
  {
  }

  lemma {:induction false} CreatedChains(fs: FileSystem, w: SoundVolume, id: nat)
    requires Grown(fs.vol, w, [id]) && id < |w.headers|
    ensures Chains(w.headers[id := HeadHeader(id)], w.seg, fs.elems[id := []])
  {
    FreshId(fs, w, id);
    var hs, elems := w.headers[id := HeadHeader(id)], fs.elems[id := []];
    forall g | g in elems ensures ChainInv(hs, w.seg, g, elems[g]) {
      if g != id {
        GrownChain(fs, w, [id], g);
      }
    }
  }

  lemma {:induction false} CreatedOwned(fs: FileSystem, w: SoundVolume, id: nat)
    requires Grown(fs.vol, w, [id]) && id < |w.headers|
    ensures Owned(w.headers[id := HeadHeader(id)], w.busy, fs.elems[id := []])
  {
    FreshId(fs, w, id);
    var hs, elems := w.headers[id := HeadHeader(id)], fs.elems[id := []];
    forall g | g in elems ensures ChainBusy(w.busy, g, elems[g]) {
      if g != id {
        GrownChainBusy(fs, w, [id], g);
      }
    }
    forall x | x in w.busy ensures HasOwner(hs, elems, x) {
      if x != id {
        assert x in fs.vol.busy;
        assert HasOwner(fs.vol.headers, fs.elems, x);
      }
    }
  }

  lemma {:induction false} CreatedInv(fs: FileSystem, w: SoundVolume, id: nat, key: seq<byte>)
    requires Grown(fs.vol, w, [id]) && id < |w.headers| && |key| == w.seg
    ensures FsInv(Created(fs, w, id, key))
  {
    FreshId(fs, w, id);
    CreatedSound(w, id, key);
    CreatedChains(fs, w, id);
    CreatedOwned(fs, w, id);
  }

  /** The old entries read as before, and the new one has the name `key` and no data. */
  lemma {:induction false} CreatedReads(fs: FileSystem, w: SoundVolume, id: nat, key: seq<byte>, g: nat)
    requires Grown(fs.vol, w, [id]) && id < |w.headers| && |key| == w.seg && FsInv(Created(fs, w, id, key))
    requires g == id || g in fs.elems
    ensures var fs' := Created(fs, w, id, key);
      ChainOf(fs', g) == if g == id then Chain(KEY, key, Nil) else ChainOf(fs, g)
  {
    FreshId(fs, w, id);
    var fs': FileSystem := Created(fs, w, id, key);
    ChainReadable(fs', g, 0);
    if g == id {
      assert fs'.elems[id][0..] == [];
    } else {
      var ids := fs.elems[g];
      HeadOf(fs, g);
      ChainReadable(fs, g, 0);
      assert ChainBusy(fs.vol.busy, g, ids);
      SameElems(fs.vol, fs'.vol, ids[0..]);
    }
  }

  // ---------- deleting an entry ----------

  function Deleted(fs: Fs, w: Volume, h: nat): Fs { Fs(w, Without(fs.heads, h), fs.elems - {h}) }

  /** The clusters of an entry, in the order they are given back. */
  function ChainIds(fs: Fs, h: nat): seq<nat>
    requires h in fs.elems
  {
    fs.elems[h] + [h]
  }

  lemma {:induction false} ChainIdsBusy(fs: FileSystem, h: nat)
    requires h in fs.elems
    ensures AllBusy(fs.vol, ChainIds(fs, h))
  {
    HeadOf(fs, h);
    assert ChainBusy(fs.vol.busy, h, fs.elems[h]);
    assert ChainInv(fs.vol.headers, fs.vol.seg, h, fs.elems[h]);
    NoDupConcat(fs.elems[h], [h]);
  }

  /** The clusters of another entry are not among them. */
  lemma {:induction false} OtherIds(fs: FileSystem, h: nat, g: nat)
    requires h in fs.elems && g in fs.elems && g != h
    ensures g !in ChainIds(fs, h) && forall i :: 0 <= i < |fs.elems[g]| ==> fs.elems[g][i] !in ChainIds(fs, h)
  {
    assert ChainInv(fs.vol.headers, fs.vol.seg, h, fs.elems[h]);
    assert ChainInv(fs.vol.headers, fs.vol.seg, g, fs.elems[g]);
  }

  lemma {:induction false} DeletedChain(fs: FileSystem, w: SoundVolume, h: nat, g: nat)
    requires h in fs.elems && g in fs.elems && g != h && Released(fs.vol, w, ChainIds(fs, h))
    ensures ChainInv(w.headers, w.seg, g, fs.elems[g]) && ChainBusy(w.busy, g, fs.elems[g])
  {
    OtherIds(fs, h, g);
    assert ChainInv(fs.vol.headers, fs.vol.seg, g, fs.elems[g]);
    assert ChainBusy(fs.vol.busy, g, fs.elems[g]);
  }

  lemma {:induction false} DeletedOwner(fs: FileSystem, w: SoundVolume, h: nat, x: nat)
    requires h in fs.elems && Released(fs.vol, w, ChainIds(fs, h)) && x in w.busy
    ensures HasOwner(w.headers, fs.elems - {h}, x)
  {
    assert HasOwner(fs.vol.headers, fs.elems, x);
    assert x !in ChainIds(fs, h);
    assert ChainIds(fs, h)[|fs.elems[h]|] == h;
    assert forall i :: 0 <= i < |fs.elems[h]| ==> ChainIds(fs, h)[i] == fs.elems[h][i];
  }

  lemma {:induction false} DeletedInv(fs: FileSystem, w: SoundVolume, h: nat)
    requires h in fs.elems && Released(fs.vol, w, ChainIds(fs, h))
    ensures FsInv(Deleted(fs, w, h))
  {
    WithoutOne(fs.heads, h);
    forall g | g in fs.elems - {h} ensures ChainInv(w.headers, w.seg, g, (fs.elems - {h})[g]) {
      DeletedChain(fs, w, h, g);
    }
    forall g | g in fs.elems - {h} ensures ChainBusy(w.busy, g, (fs.elems - {h})[g]) {
      DeletedChain(fs, w, h, g);
    }
    forall x | x in w.busy ensures HasOwner(w.headers, fs.elems - {h}, x) {
      DeletedOwner(fs, w, h, x);
    }
  }

  lemma {:induction false} DeletedReads(fs: FileSystem, w: SoundVolume, h: nat, g: nat)
    requires h in fs.elems && Released(fs.vol, w, ChainIds(fs, h)) && FsInv(Deleted(fs, w, h))
    requires g in fs.elems && g != h
    ensures ChainOf(Deleted(fs, w, h), g) == ChainOf(fs, g)
  {
    var fs': FileSystem := Deleted(fs, w, h);
    OtherIds(fs, h, g);
    HeadOf(fs, g);
    ChainReadable(fs, g, 0);
    ChainReadable(fs', g, 0);
    assert ChainInv(fs.vol.headers, fs.vol.seg, g, fs.elems[g]);
    SameElems(fs.vol, fs'.vol, fs.elems[g][0..]);
  }
}
