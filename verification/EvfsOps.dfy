/** Reading entries. */
module EvfsOps {
  import opened Bytes
  import opened EvfsChain
  import opened EvfsEntries
  import opened EvfsSteps
  import opened EvfsFiles

  // ---------- reading ----------

  lemma {:induction false} ReadStops(seg: nat, es: Elems, off: nat, remain: nat)
    requires Shaped(seg, es) && (es == Nil || remain == 0 || off >= seg || es.size == 0 || off > es.size)
    ensures ReadElem(seg, es, off, remain) == []
  {
  }

  /** Some bytes of the `j`-th element. */
  method ReadPart(f: Files, h: nat, j: nat, off: nat, cp: nat) returns (out: seq<byte>)
    requires f.Valid() && h in f.elems && j < |f.elems[h]| && off + cp <= f.views.seg
    ensures ElemsFrom(f.State(), h, j) != Nil && out == ElemsFrom(f.State(), h, j).data[off..off + cp]
  {
    ghost var fs: FileSystem := f.State();
    ElemsFromStep(fs, h, j);
    assert ChainInv(fs.vol.headers, fs.vol.seg, h, fs.elems[h]);
    out := f.views.ReadUserdata(f.elems[h][j], off, cp);
  }

  /** __evfs_entries_read_element from the `j`-th element on. */
  method ReadElement(f: Files, h: nat, j: nat, off: nat, remain: nat) returns (out: seq<byte>)
    requires f.Valid() && h in f.elems && j <= |f.elems[h]|
    ensures out == ReadElem(f.views.seg, ElemsFrom(f.State(), h, j), off, remain)
    decreases |f.elems[h]| - j
  {
    ghost var es := ElemsFrom(f.State(), h, j);
    if j == |f.elems[h]| {
      ElemsFromEnd(f.State(), h, j);
      ReadStops(f.views.seg, es, off, remain);
      return [];
    }
    ElemsFromStep(f.State(), h, j);
    var size := f.views.headers[f.elems[h][j]].size;
    if remain == 0 || off >= f.views.seg || size <= 0 || size < off {
      ReadStops(f.views.seg, es, off, remain);
      return [];
    }
    var cp := Min(remain, size - off);
    ReadGoes(f.views.seg, es, off, remain, cp);
    var first := ReadPart(f, h, j, off, cp);
    var rest := ReadElement(f, h, j + 1, 0, remain - cp);
    out := first + rest;
  }

  lemma {:induction false} PassedRead(fs: FileSystem, h: nat, j: nat, inner: nat, remain: nat)
    requires h in fs.elems && j < |fs.elems[h]| && inner >= fs.vol.seg
    ensures fs.elems[h][j] < |fs.vol.headers|
    ensures var size := fs.vol.headers[fs.elems[h][j]].size;
      && 0 <= size <= inner
      && ReadAt(fs.vol.seg, ElemsFrom(fs, h, j), inner, remain) ==
        ReadAt(fs.vol.seg, ElemsFrom(fs, h, j + 1), inner - size, remain)
  {
    ElemsFromStep(fs, h, j);
    ReadPasses(fs.vol.seg, ElemsFrom(fs, h, j), inner, remain);
  }

  /** One round of the walk in evfs_entries_read_data. */
  method PassElement(f: Files, h: nat, j: nat, inner: nat, ghost remain: nat) returns (left: nat)
    requires f.Valid() && h in f.elems && j < |f.elems[h]| && inner >= f.views.seg
    ensures ReadAt(f.views.seg, ElemsFrom(f.State(), h, j), inner, remain) ==
            ReadAt(f.views.seg, ElemsFrom(f.State(), h, j + 1), left, remain)
  {
    PassedRead(f.State(), h, j, inner, remain);
    var size := f.views.headers[f.elems[h][j]].size;
    left := if size > 0 then inner - size else inner;
  }

  lemma {:induction false} ArrivedRead(fs: FileSystem, h: nat, j: nat, inner: nat, remain: nat)
    requires h in fs.elems && j <= |fs.elems[h]| && (j < |fs.elems[h]| ==> inner < fs.vol.seg)
    ensures ReadAt(fs.vol.seg, ElemsFrom(fs, h, j), inner, remain) ==
      ReadElem(fs.vol.seg, ElemsFrom(fs, h, j), inner, remain)
  {
    if j == |fs.elems[h]| {
      ElemsFromEnd(fs, h, j);
    }
    ReadPasses(fs.vol.seg, ElemsFrom(fs, h, j), inner, remain);
  }

  /** The walk of evfs_entries_read_data to the element that holds byte `off` of the elements,
      and the read from there. */
  method ReadTail(f: Files, h: nat, off: nat, remain: nat) returns (out: seq<byte>)
    requires f.Valid() && h in f.elems
    ensures out == ReadAt(f.views.seg, ElemsFrom(f.State(), h, 0), off, remain)
  {
    ghost var fs: FileSystem := f.State();
    ghost var r := ReadAt(f.views.seg, ElemsFrom(fs, h, 0), off, remain);
    var j: nat, inner: nat := 0, off;
    while j < |f.elems[h]| && inner >= f.views.seg
      invariant j <= |f.elems[h]|
      invariant ReadAt(f.views.seg, ElemsFrom(fs, h, j), inner, remain) == r
    {
      inner := PassElement(f, h, j, inner, remain);
      j := j + 1;
    }
    ArrivedRead(fs, h, j, inner, remain);
    out := ReadElement(f, h, j, inner, remain);
  }

  lemma {:induction false} ReadFromHead(seg: nat, c: Chain, off: nat, size: nat, cp: nat, first: seq<byte>,
                                        rest: seq<byte>)
    requires Wellformed(seg, c) && KEY + off < c.total && KEY + off < seg
    requires cp == Min(seg - KEY - off, Min(c.total - KEY - off, size))
    requires first == c.head[KEY + off..KEY + off + cp]
    requires rest == ReadElem(seg, c.elems, 0, Min(c.total - KEY - off, size) - cp)
    ensures first + rest == Read(seg, c, off, size)
  {
  }

  /** Some bytes of the head cluster. */
  method ReadHeadPart(f: Files, h: nat, at: nat, cp: nat) returns (out: seq<byte>)
    requires f.Valid() && h in f.elems && at + cp <= f.views.seg
    ensures out == ChainOf(f.State(), h).head[at..at + cp]
  {
    HeadOf(f.State(), h);
    out := f.views.ReadUserdata(h, at, cp);
  }

  /** A read that starts in the head cluster. */
  method ReadFront(f: Files, h: nat, off: nat, size: nat, remain: nat) returns (out: seq<byte>)
    requires f.Valid() && h in f.elems && KEY + off < f.views.seg && KEY + off < ChainOf(f.State(), h).total
    requires remain == Min(ChainOf(f.State(), h).total - KEY - off, size)
    ensures out == Read(f.views.seg, ChainOf(f.State(), h), off, size)
  {
    ghost var c := ChainOf(f.State(), h);
    var at := KEY + off;
    var cp := Min(f.views.seg - at, remain);
    var first := ReadHeadPart(f, h, at, cp);
    var rest := ReadElement(f, h, 0, 0, remain - cp);
    ReadFromHead(f.views.seg, c, off, size, cp, first, rest);
    out := first + rest;
  }

  lemma {:induction false} ReadFromTail(seg: nat, c: Chain, off: nat, size: nat)
    requires Wellformed(seg, c) && seg <= KEY + off < c.total
    ensures Read(seg, c, off, size) == ReadAt(seg, c.elems, KEY + off - seg, Min(c.total - KEY - off, size))
  {
  }

  lemma {:induction false} ReadPastEnd(seg: nat, c: Chain, off: nat, size: nat)
    requires Wellformed(seg, c) && c.total <= KEY + off
    ensures Read(seg, c, off, size) == []
  {
  }

  /** evfs_entries_read_data on the entry `h`. */
  method ReadData(f: Files, h: nat, off: nat, size: nat) returns (out: seq<byte>)
    requires f.Valid() && h in f.elems
    ensures out == Read(f.views.seg, ChainOf(f.State(), h), off, size)
  {
    HeadOf(f.State(), h);
    ghost var c := ChainOf(f.State(), h);
    var at := KEY + off;
    var total := SegSize(f.views.headers[h]);
    if total <= at {
      ReadPastEnd(f.views.seg, c, off, size);
      out := [];
    } else if at < f.views.seg {
      out := ReadFront(f, h, off, size, Min(total - at, size));
    } else {
      ReadFromTail(f.views.seg, c, off, size);
      out := ReadTail(f, h, at - f.views.seg, Min(total - at, size));
    }
  }
}
