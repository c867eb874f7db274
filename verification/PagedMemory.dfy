/** A sparse memory of fixed-size pages that behaves as a flat array of bytes, zero to begin with. */
module PagedMemory {
  import opened Bits

  type Byte = x: int | 0 <= x < 256

  const SPACE: nat := WORD32

  type Pages = map<nat, seq<Byte>>

  ghost predicate WellFormed(pages: Pages, size: nat) {
    size > 0 && forall p: nat :: p in pages ==> |pages[p]| == size
  }

  /** The byte at an address. */
  function Flat(pages: Pages, size: nat, a: nat): Byte
    requires WellFormed(pages, size)
  {
    if Div(a, size) in pages then
      Divided(a, size);
      pages[Div(a, size)][Mod(a, size)]
    else 0
  }

  function ZeroPage(size: nat): (page: seq<Byte>)
    ensures |page| == size && forall i: nat :: i < size ==> page[i] == 0
  {
    if size == 0 then [] else ZeroPage(size - 1) + [0]
  }

  function Patched(page: seq<Byte>, offset: nat, data: seq<Byte>): seq<Byte>
    requires offset + |data| <= |page|
  {
    page[..offset] + data + page[offset + |data|..]
  }

  /** The pages with `data` written into one of them, which is made if it was missing. */
  function Put(pages: Pages, size: nat, p: nat, offset: nat, data: seq<Byte>): (r: Pages)
    requires WellFormed(pages, size) && offset + |data| <= size
    ensures WellFormed(r, size)
  {
    var page := if p in pages then pages[p] else ZeroPage(size);
    pages[p := Patched(page, offset, data)]
  }

  /** Different pages do not overlap. */
  lemma PagesApart(size: nat, p: nat, q: nat)
    requires p < q
    ensures Mul(size, p) + size <= Mul(size, q)
  {
    hide Mul;
    MulNext(size, p);
    Monotone(size, p + 1, q);
  }

  /** Writing into one page changes exactly the bytes written. */
  lemma PutFlat(pages: Pages, size: nat, p: nat, offset: nat, data: seq<Byte>, a: nat)
    requires WellFormed(pages, size) && offset + |data| <= size
    ensures var at := Mul(size, p) + offset;
            Flat(Put(pages, size, p, offset, data), size, a) ==
            if at <= a < at + |data| then data[a - at] else Flat(pages, size, a)
  {
    hide Mul, Div, Mod;
    Divided(a, size);
    var d := Div(a, size);
    if d < p {
      PagesApart(size, d, p);
    } else if p < d {
      PagesApart(size, p, d);
    }
  }

  // ----- The flat memory

  datatype Write = Write(addr: nat, data: seq<Byte>)

  /** How far `a` lies after `addr`, going round the address space. */
  function Distance(addr: nat, a: nat): nat
    requires addr < SPACE && a < SPACE
  {
    if a >= addr then a - addr else a + SPACE - addr
  }

  function Wrap(x: nat): nat {
    if x >= SPACE then x - SPACE else x
  }

  /** The byte at `a` of a flat memory, zero to begin with, after some writes. */
  function After(log: seq<Write>, a: nat): Byte
    requires a < SPACE
  {
    if log == [] then 0
    else
      var w := log[|log| - 1];
      if w.addr < SPACE && Distance(w.addr, a) < |w.data| then w.data[Distance(w.addr, a)]
      else After(log[..|log| - 1], a)
  }

  /** The pages hold what the flat memory does. */
  ghost predicate Refines(pages: Pages, size: nat, log: seq<Write>) {
    WellFormed(pages, size) && forall a: nat :: a < SPACE ==> Flat(pages, size, a) == After(log, a)
  }

  /** The first `n` bytes of a write are in. */
  ghost predicate Partly(pages: Pages, size: nat, log: seq<Write>, w: Write, n: nat)
    requires w.addr < SPACE && n <= |w.data|
  {
    Refines(pages, size, log + [Write(w.addr, w.data[..n])])
  }

  lemma LogGrows(log: seq<Write>, w: Write, a: nat)
    requires w.addr < SPACE && a < SPACE
    ensures After(log + [w], a) == if Distance(w.addr, a) < |w.data| then w.data[Distance(w.addr, a)] else After(log, a)
  {
    assert (log + [w])[..|log|] == log;
  }

  lemma WrapNone(addr: nat)
    requires addr < SPACE
    ensures Wrap(addr + 0) == addr
  {
  }

  lemma WrapOn(addr: nat, done: nat, count: nat)
    requires addr < SPACE && done < SPACE && Wrap(addr + done) + count <= SPACE && done + count <= SPACE
    ensures Wrap(addr + done) < SPACE
    ensures Wrap(addr + (done + count)) == (Wrap(addr + done) + count) % SPACE
  {
  }

  /** Where a run of bytes that does not go round lies in a run that may. */
  lemma InRun(addr: nat, done: nat, count: nat, a: nat)
    requires addr < SPACE && a < SPACE && done + count <= SPACE && Wrap(addr + done) + count <= SPACE && done < SPACE
    ensures var at := Wrap(addr + done);
            && (at <= a < at + count <==> done <= Distance(addr, a) < done + count)
            && (at <= a < at + count ==> Distance(addr, a) == done + (a - at))
  {
  }

  /** Writing the next bytes, which lie in one page, carries the write on. */
  lemma PutCarriesOn(pages: Pages, size: nat, log: seq<Write>, w: Write, n: nat, count: nat, p: nat, offset: nat)
    requires w.addr < SPACE && n + count <= |w.data| < SPACE && Partly(pages, size, log, w, n)
    requires offset + count <= size && Wrap(w.addr + n) == Mul(size, p) + offset && Wrap(w.addr + n) + count <= SPACE
    ensures WellFormed(pages, size)
    ensures Partly(Put(pages, size, p, offset, w.data[n..n + count]), size, log, w, n + count)
  {
    hide Mul, Flat, Put, Wrap, After, Distance;
    var data := w.data[n..n + count];
    forall a: nat | a < SPACE
      ensures Flat(Put(pages, size, p, offset, data), size, a) == After(log + [Write(w.addr, w.data[..n + count])], a)
    {
      PutFlat(pages, size, p, offset, data, a);
      InRun(w.addr, n, count, a);
      LogGrows(log, Write(w.addr, w.data[..n]), a);
      LogGrows(log, Write(w.addr, w.data[..n + count]), a);
    }
  }

  lemma NothingYet(pages: Pages, size: nat, log: seq<Write>, w: Write)
    requires w.addr < SPACE && Refines(pages, size, log)
    ensures Partly(pages, size, log, w, 0)
  {
    forall a: nat | a < SPACE ensures After(log + [Write(w.addr, w.data[..0])], a) == After(log, a) {
      LogGrows(log, Write(w.addr, w.data[..0]), a);
    }
  }

  lemma AllIn(pages: Pages, size: nat, log: seq<Write>, w: Write)
    requires w.addr < SPACE && Partly(pages, size, log, w, |w.data|)
    ensures Refines(pages, size, log + [w])
  {
    assert w.data[..|w.data|] == w.data;
  }

  datatype Result<T> = Ok(value: T) | Thrown

  class Memory {
    const log2: nat
    const size: nat := Pow2(log2)
    var pages: Pages
    ghost var log: seq<Write>

    /** A page is smaller than the address space. */
    ghost predicate Valid()
      reads this
    {
      log2 < 32 && Refines(pages, size, log)
    }

    constructor (log2: nat)
      requires log2 < 32
      ensures Valid() && log == [] && this.log2 == log2
    {
      this.log2 := log2;
      pages, log := map[], [];
    }

    /** The space is a whole number of pages. */
    lemma PageBounds(addr: nat)
      requires log2 < 32 && addr < SPACE
      ensures var p := Div(addr, size);
              && addr == Mul(size, p) + Mod(addr, size) && Mod(addr, size) < size && 2 * size <= SPACE
              && Mul(size, p + 1) == Mul(size, p) + size && Mul(size, p) + size <= SPACE
              && (Mul(size, p) + size < SPACE ==> Mul(size, p) + 2 * size <= SPACE)
    {
      hide Mul, Div, Mod;
      var p, count := Div(addr, size), Pow2(32 - log2);
      Divided(addr, size);
      Pow2Sum(log2, 32 - log2);
      WordIsPower();
      Pow2Monotone(log2 + 1, 32);
      assert Pow2(log2 + 1) == 2 * size;
      assert Mul(size, count) == SPACE;
      WholePages(size, count, p);
    }

    /** How many bytes fit in what is left of a page, in 32 bits. */
    function Piece(start: nat, remain: nat): (count: nat)
      requires start < size && remain < SPACE && size <= SPACE
      ensures start + remain < SPACE ==> count == if start + remain > size then size - start else remain
      ensures start + remain >= SPACE ==> count == remain
    {
      var limit := (start + remain) % SPACE;
      var cut := if limit > size then size else limit;
      if cut >= start then cut - start else cut + SPACE - start
    }

    /** The slow route: page by page. The length is cut to 32 bits. A first piece whose end does not fit in 32 bits
        fails the page's own check. */
    method WriteSlow(addr: nat, data: seq<Byte>) returns (ok: bool)
      requires Valid() && addr < SPACE
      modifies this
      ensures Valid() && (ok <==> Mod(addr, size) + |data| % SPACE < SPACE)
      ensures log == if ok then old(log) + [Write(addr, data[..|data| % SPACE])] else old(log)
    {
      hide Mul, Flat, Put, After, Distance, Div, Mod, Pow2, Refines, Partly, Wrap, Piece;
      var written := data[..|data| % SPACE];
      ghost var w := Write(addr, written);
      NothingYet(pages, size, log, w);
      WrapNone(addr);
      var remain: nat, offset: nat, current: nat := |written|, 0, addr;
      PageBounds(addr);
      while remain > 0
        invariant offset + remain == |written| && current == Wrap(addr + offset) < SPACE && log == old(log)
        invariant Partly(pages, size, log, w, offset)
        invariant if offset == 0 then current == addr && pages == old(pages)
                  else Mod(current, size) + remain < SPACE && Mod(addr, size) + |written| < SPACE
      {
        PageBounds(current);
        var start, page := Mod(current, size), Div(current, size);
        var count := Piece(start, remain);
        if start + count > size {
          return false;
        }
        WrapOn(addr, offset, count);
        PutCarriesOn(pages, size, log, w, offset, count, page, start);
        pages := Put(pages, size, page, start, written[offset..offset + count]);
        offset, current, remain := offset + count, (current + count) % SPACE, remain - count;
        PageBounds(current);
      }
      AllIn(pages, size, log, w);
      log := log + [w];
      ok := true;
    }

    /** The end of the page of an address, in 32 bits: the last page's wraps to zero. */
    function PageEnd(p: nat): nat {
      Mul(p + 1, size) % SPACE
    }

    /** Writes some bytes: at once when they lie in one page that is not the last, else page by page. */
    method WriteBytes(addr: nat, data: seq<Byte>) returns (ok: bool)
      requires Valid() && addr < SPACE
      modifies this
      ensures Valid() && (ok <==> Mod(addr, size) + |data| % SPACE < SPACE)
      ensures log == if ok then old(log) + [Write(addr, data[..|data| % SPACE])] else old(log)
    {
      hide Mul, Flat, Put, After, Distance, Div, Mod, Pow2;
      var index := Div(addr, size);
      EndOfPage(addr);
      if addr + |data| <= PageEnd(index) {
        PageBounds(addr);
        ghost var w := Write(addr, data);
        NothingYet(pages, size, log, w);
        PutCarriesOn(pages, size, log, w, 0, |data|, index, Mod(addr, size));
        assert data[0..|data|] == data && data[..|data|] == data;
        pages := Put(pages, size, index, Mod(addr, size), data);
        log := log + [w];
        ok := true;
      } else {
        ok := WriteSlow(addr, data);
      }
    }

    /** Where a page ends as computed in 32 bits. */
    lemma EndOfPage(addr: nat)
      requires log2 < 32 && addr < SPACE
      ensures var p := Div(addr, size);
              PageEnd(p) == if addr >= SPACE - size then 0 else Mul(size, p) + size
      ensures addr < SPACE - size ==> Mul(size, Div(addr, size)) + size <= SPACE - size
    {
      hide Mul, Div, Mod, Pow2;
      PageBounds(addr);
      Doubled(Div(addr, size) + 1, size);
    }

    /** The bytes of a range of the flat memory. */
    ghost function Range(addr: nat, length: nat): (bytes: seq<Byte>)
      reads this
      requires addr + length <= SPACE
      ensures |bytes| == length && forall i: nat :: i < length ==> bytes[i] == After(log, addr + i)
    {
      if length == 0 then [] else Range(addr, length - 1) + [After(log, addr + length - 1)]
    }

    /** Reads from one page; refuses what reaches beyond the page's end. */
    method ReadSingleBlock(p: nat, addr: nat, length: nat) returns (r: Result<seq<Byte>>)
      requires Valid() && addr < SPACE && p == Div(addr, size)
      ensures r.Thrown? <==> addr + length > PageEnd(p)
      ensures r.Ok? ==> addr + length <= SPACE && r.value == Range(addr, length)
    {
      hide Mul, Div, Mod, Pow2, After;
      EndOfPage(addr);
      PageBounds(addr);
      if addr + length > PageEnd(p) {
        return Thrown;
      }
      var offset := Mod(addr, size);
      var bytes := if p in pages then pages[p][offset..offset + length] else ZeroPage(length);
      forall i: nat | i < length ensures bytes[i] == Range(addr, length)[i] {
        ByteInPage(addr, p, i);
      }
      r := Ok(bytes);
    }

    lemma ByteInPage(addr: nat, p: nat, i: nat)
      requires Valid() && p == Div(addr, size) && Mod(addr, size) + i < size && addr + i < SPACE
      ensures After(log, addr + i) == if p in pages then pages[p][Mod(addr, size) + i] else 0
    {
      hide Mul, Div, Mod, Pow2, After;
      Divided(addr, size);
      Quotient(size, p, Mod(addr, size) + i);
      assert Flat(pages, size, addr + i) == After(log, addr + i);
    }

    /** The slow route: page by page. The length is cut to 32 bits. */
    method ReadSlow(addr: nat, length: nat) returns (r: Result<seq<Byte>>)
      requires Valid() && addr < SPACE
      ensures r.Thrown? <==> length % SPACE > 0 && addr + length % SPACE > SPACE - size
      ensures r.Ok? ==> addr + length % SPACE <= SPACE && r.value == Range(addr, length % SPACE)
    {
      hide Mul, Div, Mod, Pow2, After, Refines, PageEnd;
      PageBounds(addr);
      var n := length % SPACE;
      var data, remain: nat, current: nat := [], n, addr;
      while remain > 0
        invariant |data| + remain == n && current == addr + |data| < SPACE && data == Range(addr, |data|)
        invariant data != [] ==> current <= SPACE - size
      {
        PageBounds(current);
        EndOfPage(current);
        var start, page := Mod(current, size), Div(current, size);
        var count := Piece(start, remain);
        var part := ReadSingleBlock(page, current, count);
        if part.Thrown? {
          return Thrown;
        }
        data := data + part.value;
        current, remain := (current + count) % SPACE, remain - count;
      }
      r := Ok(data);
    }

    /** Reads some bytes of the flat memory. Throws exactly when the range touches the last page of the space. */
    method ReadBytes(addr: nat, length: nat) returns (r: Result<seq<Byte>>)
      requires Valid() && addr < SPACE
      ensures r.Thrown? <==> length % SPACE > 0 && addr + length % SPACE > SPACE - size
      ensures r.Ok? ==> addr + length % SPACE <= SPACE && r.value == Range(addr, length % SPACE)
    {
      hide Mul, Div, Mod, Pow2, After, Refines, PageEnd;
      EndOfPage(addr);
      PageBounds(addr);
      if addr + length <= PageEnd(Div(addr, size)) {
        r := ReadSingleBlock(Div(addr, size), addr, length);
      } else {
        r := ReadSlow(addr, length);
      }
    }
  }

  /** A byte written near the end of the space cannot be read back. */
  method LastPageExample() returns (r: Result<seq<Byte>>)
    ensures r.Thrown?
  {
    var m := new Memory(12);
    assert m.size == 4096 by {
      assert Pow2(6) == 64;
    }
    var written := m.WriteBytes(0xFFFF_FFF0, [7]);
    r := m.ReadBytes(0xFFFF_FFF0, 1);
  }

  lemma WholePages(size: nat, count: nat, p: nat)
    requires size > 0 && count > 0 && Mul(size, count) == SPACE && Mul(size, p) < SPACE
    ensures Mul(size, p + 1) == Mul(size, p) + size && Mul(size, p) + size <= SPACE
    ensures Mul(size, p) + size < SPACE ==> Mul(size, p) + 2 * size <= SPACE
  {
    hide Mul;
    MulNext(size, p);
    MulNext(size, p + 1);
    if count <= p {
      Monotone(size, count, p);
    } else {
      Monotone(size, p + 1, count);
      if p + 1 < count {
        Monotone(size, p + 2, count);
      }
    }
  }
}
