/** Reading and writing a tracee's memory one machine word at a time.

    A word is kept as its eight bytes in address order, which is what the little-endian
    conversions on both sides of each transfer amount to. An address the tracee has not
    mapped is absent from the map; a transfer of a word fails when any of its bytes is. */
module TraceeMemory {
  import opened Options

  type Byte = x: int | 0 <= x < 256
  type Address = int
  type Memory = map<Address, Byte>

  predicate Mapped(mem: Memory, at: Address, length: nat) {
    forall a :: at <= a < at + length ==> a in mem
  }

  /** The whole words that cover `length` bytes from `at` are mapped. */
  predicate WordsMapped(mem: Memory, at: Address, length: nat) {
    Mapped(mem, at, WordCount(length) * 8)
  }

  function WordCount(length: nat): nat { (length + 8 - 1) / 8 }

  function Bytes(mem: Memory, at: Address, length: nat): (r: seq<Byte>)
    requires Mapped(mem, at, length)
  {
    seq(length, i requires 0 <= i < length => mem[at + i])
  }

  /** Memory with the bytes from `at` on replaced, and every other byte as before. */
  function Overwrite(mem: Memory, at: Address, bytes: seq<Byte>): Memory {
    map a | a in mem :: if at <= a < at + |bytes| then bytes[a - at] else mem[a]
  }

  function PeekWord(mem: Memory, at: Address): Option<seq<Byte>> {
    if Mapped(mem, at, 8) then Some(Bytes(mem, at, 8)) else None
  }

  function PokeWord(mem: Memory, at: Address, word: seq<Byte>): Option<Memory>
    requires |word| == 8
  {
    if Mapped(mem, at, 8) then Some(Overwrite(mem, at, word)) else None
  }

  /** Some(bytes) exactly when every covering word can be read. */
  function ReadSpec(mem: Memory, at: Address, length: nat): Option<seq<Byte>> {
    if WordsMapped(mem, at, length) then
      WordsCover(length);
      Some(Bytes(mem, at, length))
    else None
  }

  lemma WordsCover(length: nat)
    ensures length <= WordCount(length) * 8 < length + 8
  {
  }

  method ReadStruct(mem: Memory, addr: Address, len: nat) returns (r: Option<seq<Byte>>)
    ensures r == ReadSpec(mem, addr, len)
  {
    WordsCover(len);
    var out: seq<Byte> := [];
    var off := 0;
    while |out| < len
      invariant off == |out| && off % 8 == 0 && off <= WordCount(len) * 8
      invariant Mapped(mem, addr, off) && out == Bytes(mem, addr, off)
    {
      assert off + 8 <= WordCount(len) * 8;
      var word := PeekWord(mem, addr + off);
      if word.None? {
        assert exists a :: addr + off <= a < addr + off + 8 && a !in mem;
        return None;
      }
      assert Mapped(mem, addr, off + 8);
      out := out + word.value;
      off := off + 8;
    }
    assert off == WordCount(len) * 8;
    assert out[..len] == Bytes(mem, addr, len);
    r := Some(out[..len]);
  }

  /** How many of the first n words from `at` on are mapped before one is not. */
  function LeadingWords(mem: Memory, at: Address, n: nat): (w: nat)
    ensures w <= n
    ensures Mapped(mem, at, 8 * w)
    ensures w < n ==> !Mapped(mem, at + 8 * w, 8)
    decreases n
  {
    if n == 0 || !Mapped(mem, at, 8) then 0
    else 1 + LeadingWords(mem, at + 8, n - 1)
  }

  /** Succeeds exactly when the covering words are mapped, and then changes the bytes of
      [at, at + |bytes|) and no other byte, whatever the length. A failure leaves the words
      before the first unmapped one written. */
  function WriteSpec(mem: Memory, at: Address, bytes: seq<Byte>): (bool, Memory) {
    if WordsMapped(mem, at, |bytes|) then (true, Overwrite(mem, at, bytes))
    else
      var w := LeadingWords(mem, at, WordCount(|bytes|));
      WordsCover(|bytes|);
      assert w < WordCount(|bytes|);
      (false, Overwrite(mem, at, bytes[..8 * w]))
  }

  method WriteStruct(mem: Memory, addr: Address, bytes: seq<Byte>) returns (ok: bool, after: Memory)
    ensures (ok, after) == WriteSpec(mem, addr, bytes)
  {
    WordsCover(|bytes|);
    after := mem;
    var off := 0;
    ghost var w := 0;
    assert bytes[..0] == [];
    while off < |bytes|
      invariant off == w * 8 <= WordCount(|bytes|) * 8
      invariant after == Overwrite(mem, addr, bytes[..if off < |bytes| then off else |bytes|])
      invariant Mapped(mem, addr, off)
    {
      var n := if |bytes| - off < 8 then |bytes| - off else 8;
      var at := addr + off;
      var chunk: seq<Byte>;
      if n == 8 {
        chunk := seq(8, _ => 0);
      } else {
        var kept := PeekWord(after, at);
        chunk := if kept.Some? then kept.value else seq(8, _ => 0);
      }
      chunk := bytes[off..off + n] + chunk[n..];
      var poked := PokeWord(after, at, chunk);
      if poked.None? {
        FirstGap(mem, addr, WordCount(|bytes|), w);
        return false, after;
      }
      MergedWord(mem, addr, bytes, off, n, after, chunk);
      after := poked.value;
      off := off + 8;
      w := w + 1;
    }
    assert off == WordCount(|bytes|) * 8;
    assert bytes[..|bytes|] == bytes;
    ok := true;
  }

  lemma {:induction false} FirstGap(mem: Memory, at: Address, n: nat, w: nat)
    requires w < n && Mapped(mem, at, 8 * w) && !Mapped(mem, at + 8 * w, 8)
    ensures LeadingWords(mem, at, n) == w
    ensures !Mapped(mem, at, n * 8)
    decreases w
  {
    if w > 0 {
      assert Mapped(mem, at, 8);
      FirstGap(mem, at + 8, n - 1, w - 1);
    }
  }

  /** Writing back the merged word extends the written prefix and keeps the tail. */
  lemma MergedWord(mem: Memory, addr: Address, bytes: seq<Byte>, off: nat, n: nat, before: Memory, chunk: seq<Byte>)
    requires off < |bytes| && n == (if |bytes| - off < 8 then |bytes| - off else 8)
    requires before == Overwrite(mem, addr, bytes[..off]) && Mapped(mem, addr + off, 8)
    requires |chunk| == 8 && chunk[..n] == bytes[off..off + n]
    requires chunk[n..] == Bytes(before, addr + off, 8)[n..]
    ensures Overwrite(before, addr + off, chunk) == Overwrite(mem, addr, bytes[..off + n])
  {
    var l := Overwrite(before, addr + off, chunk);
    var r := Overwrite(mem, addr, bytes[..off + n]);
    assert l.Keys == mem.Keys == r.Keys;
    forall a | a in mem ensures l[a] == r[a] {
      var i := a - (addr + off);
      if 0 <= i < n {
        assert chunk[..n][i] == bytes[off..off + n][i];
      } else if n <= i < 8 {
        assert chunk[n..][i - n] == Bytes(before, addr + off, 8)[n..][i - n];
      }
    }
  }

  /** What was written is what is read back. */
  lemma ReadAfterWrite(mem: Memory, at: Address, bytes: seq<Byte>)
    requires WordsMapped(mem, at, |bytes|)
    ensures ReadSpec(Overwrite(mem, at, bytes), at, |bytes|) == Some(bytes)
  {
    WordsCover(|bytes|);
    assert Bytes(Overwrite(mem, at, bytes), at, |bytes|) == bytes;
  }

  /** A write does not disturb a range it does not overlap. */
  lemma ReadBesideWrite(mem: Memory, at: Address, bytes: seq<Byte>, other: Address, length: nat)
    requires other + length <= at || at + |bytes| <= other
    ensures ReadSpec(Overwrite(mem, at, bytes), other, length) == ReadSpec(mem, other, length)
  {
    WordsCover(length);
    var after := Overwrite(mem, at, bytes);
    assert after.Keys == mem.Keys;
    if WordsMapped(mem, other, length) {
      assert Bytes(after, other, length) == Bytes(mem, other, length);
    }
  }

  /** The buffer is there and the source gives enough bytes. */
  predicate CanFill(mem: Memory, buf: Address, count: nat, available: bool, source: seq<Byte>) {
    count == 0 || (buf != 0 && available && count <= |source| && WordsMapped(mem, buf, count))
  }

  ghost predicate OnlyInside(mem: Memory, after: Memory, buf: Address, count: nat) {
    && after.Keys == mem.Keys
    && forall a :: a in mem && !(buf <= a < buf + count) ==> after[a] == mem[a]
  }

  /** getrandom filled from a random source. It works exactly when it can; then the requested
      range, and nothing else, holds the first `count` bytes of the source, each used once.
      When it does not work, still no byte outside the range has changed. */
  ghost predicate FillDone(mem: Memory, buf: Address, count: nat, available: bool, source: seq<Byte>, ok: bool,
                           after: Memory) {
    && (ok <==> CanFill(mem, buf, count, available, source))
    && (ok ==> after == Overwrite(mem, buf, if count == 0 then [] else source[..count]))
    && OnlyInside(mem, after, buf, count)
  }

  method EmulateGetrandom(mem: Memory, buf: Address, count: nat, available: bool, source: seq<Byte>)
    returns (ok: bool, after: Memory)
    ensures FillDone(mem, buf, count, available, source, ok, after)
  {
    after := mem;
    assert mem == Overwrite(mem, buf, []) && source[..0] == [];
    if count == 0 {
      return true, after;
    }
    if buf == 0 {
      return false, after;
    }
    if !available {
      return false, after;
    }
    ok := true;
    var off := 0;
    ghost var c := 0;
    while off < count && ok
      invariant ok ==> off <= count && off <= |source| && (off == count || off == c * 65536)
      invariant ok ==> WordsMapped(mem, buf, off) && after == Overwrite(mem, buf, source[..off])
      invariant !ok ==> !CanFill(mem, buf, count, available, source)
      invariant OnlyInside(mem, after, buf, count)
      decreases ok, count - off
    {
      var want := if count - off < 65536 then count - off else 65536;
      if |source| < off + want {
        ok := false;
      } else {
        ChunkWords(mem, buf, off, c, want, count);
        ok, after := FillChunk(after, buf, source, off, want, mem);
        off := off + want;
        c := c + 1;
      }
    }
  }

  method FillChunk(mem: Memory, buf: Address, source: seq<Byte>, off: nat, want: nat, ghost start: Memory)
    returns (ok: bool, after: Memory)
    requires off + want <= |source| && mem == Overwrite(start, buf, source[..off])
    ensures ok <==> WordsMapped(start, buf + off, want)
    ensures ok ==> after == Overwrite(start, buf, source[..off + want])
    ensures OnlyInside(start, after, buf, off + want)
  {
    SameKeys(start, mem, buf + off, want);
    AppendedWrite(start, buf, source, off, want);
    assert |source[off..off + want]| == want;
    ok, after := WriteStruct(mem, buf + off, source[off..off + want]);
    WriteStaysInside(mem, buf + off, source[off..off + want]);
  }

  lemma WriteStaysInside(mem: Memory, at: Address, bytes: seq<Byte>)
    ensures OnlyInside(mem, WriteSpec(mem, at, bytes).1, at, |bytes|)
  {
    WordsCover(|bytes|);
  }

  lemma SameKeys(start: Memory, mem: Memory, at: Address, length: nat)
    requires mem.Keys == start.Keys
    ensures WordsMapped(mem, at, length) == WordsMapped(start, at, length)
  {
  }

  /** Chunks are whole words, so covering the chunks covers the request. */
  lemma ChunkWords(mem: Memory, buf: Address, off: nat, chunks: nat, want: nat, count: nat)
    requires off == chunks * 65536 && off < count && want == (if count - off < 65536 then count - off else 65536)
    ensures WordsMapped(mem, buf, off) && WordsMapped(mem, buf + off, want) ==> WordsMapped(mem, buf, off + want)
    ensures WordsMapped(mem, buf, count) ==> WordsMapped(mem, buf + off, want)
  {
    var words := chunks * 8192;
    assert off == words * 8;
    WordsAfter(words, want);
    WordsAfter(words, 0);
    WordsAfter(words, count - off);
    if want == 65536 {
      WordsAfter(8192, count - off - want);
    }
  }

  lemma WordsAfter(words: nat, more: nat)
    ensures WordCount(words * 8 + more) == words + WordCount(more)
  {
  }

  lemma AppendedWrite(mem: Memory, buf: Address, source: seq<Byte>, off: nat, n: nat)
    requires off + n <= |source|
    ensures Overwrite(Overwrite(mem, buf, source[..off]), buf + off, source[off..off + n])
         == Overwrite(mem, buf, source[..off + n])
  {
    var once := Overwrite(mem, buf, source[..off]);
    var twice := Overwrite(once, buf + off, source[off..off + n]);
    var whole := Overwrite(mem, buf, source[..off + n]);
    assert twice.Keys == whole.Keys;
    forall a | a in whole ensures twice[a] == whole[a] { }
  }
}
