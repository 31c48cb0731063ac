/** The 24-byte header in front of every segment of a ring. */
module SegmentHeader {
  import opened Util

  /** sizeof(DPI_SEGMENT_HEADER_t): three 64-bit words. */
  const HEADER_SIZE: nat := 24

  /** A header as the protocols see it: payload length, link, and the three flags of the flag word. */
  datatype Header = Header(counter: nat, next: nat, writeable: bool, consumable: bool, end: bool) {
    function SetWriteable(b: bool): (h: Header) { this.(writeable := b) }
    function SetConsumable(b: bool): (h: Header) { this.(consumable := b) }
    function MarkEnd(): (h: Header) { this.(end := true) }
  }

  /** A segment of remote memory: header and payload area. */
  datatype Segment = Segment(h: Header, data: seq<byte>)

  /** The header NodeServer initialises a segment with, and the one a released segment returns to. */
  function FreeHeader(next: nat): (h: Header) { Header(0, next, true, false, false) }

  // The flag word itself. The clearing masks are four bits wide, so a clear also drops everything above bit 3.

  type Word = bv64

  predicate IsWriteable(w: Word) { w & 0x1 != 0 }
  predicate IsConsumable(w: Word) { w & 0x2 != 0 }
  predicate IsEnd(w: Word) { w & 0x4 != 0 }

  function WordWriteable(w: Word, b: bool): (w': Word) { if b then w | 0x1 else w & 0xE }
  function WordConsumable(w: Word, b: bool): (w': Word) { if b then w | 0x2 else w & 0xD }
  function WordEnd(w: Word, b: bool): (w': Word) { if b then w | 0x4 else w & 0xB }

  /** The header a flag word stands for. */
  function Decode(counter: nat, next: nat, w: Word): (h: Header) {
    Header(counter, next, IsWriteable(w), IsConsumable(w), IsEnd(w))
  }

  lemma WriteableBit(w: Word, b: bool)
    ensures IsWriteable(WordWriteable(w, b)) == b
    ensures IsConsumable(WordWriteable(w, b)) == IsConsumable(w)
    ensures IsEnd(WordWriteable(w, b)) == IsEnd(w)
  {
  }

  lemma ConsumableBit(w: Word, b: bool)
    ensures IsWriteable(WordConsumable(w, b)) == IsWriteable(w)
    ensures IsConsumable(WordConsumable(w, b)) == b
    ensures IsEnd(WordConsumable(w, b)) == IsEnd(w)
  {
  }

  lemma EndBit(w: Word, b: bool)
    ensures IsWriteable(WordEnd(w, b)) == IsWriteable(w)
    ensures IsConsumable(WordEnd(w, b)) == IsConsumable(w)
    ensures IsEnd(WordEnd(w, b)) == b
  {
  }

  /** Every setter on the word does to the decoded header exactly what the field update does, for every word. */
  lemma FlagWordRefinesHeader(counter: nat, next: nat, w: Word, b: bool)
    ensures Decode(counter, next, WordWriteable(w, b)) == Decode(counter, next, w).SetWriteable(b)
    ensures Decode(counter, next, WordConsumable(w, b)) == Decode(counter, next, w).SetConsumable(b)
    ensures Decode(counter, next, WordEnd(w, true)) == Decode(counter, next, w).MarkEnd()
  {
    WriteableBit(w, b);
    ConsumableBit(w, b);
    EndBit(w, true);
  }

  // ---------------------------------------------------------------- bytes

  /** One past the largest value of a 64-bit word. */
  const WORD: nat := 0x1_0000_0000_0000_0000

  /** A word as k bytes, least significant first. */
  function WordBytes(x: nat, k: nat): (bytes: seq<byte>)
    ensures |bytes| == k
  {
    if k == 0 then [] else [(x % 256) as byte] + WordBytes(x / 256, k - 1)
  }

  function WordOf(bytes: seq<byte>): (x: nat) {
    if bytes == [] then 0 else bytes[0] as nat + 256 * WordOf(bytes[1..])
  }

  function Pow256(k: nat): (x: nat) {
    if k == 0 then 1 else 256 * Pow256(k - 1)
  }

  lemma {:induction false} WordRoundTrip(x: nat, k: nat)
    requires x < Pow256(k)
    ensures WordOf(WordBytes(x, k)) == x
  {
    if k > 0 {
      assert WordBytes(x, k)[1..] == WordBytes(x / 256, k - 1);
      WordRoundTrip(x / 256, k - 1);
    }
  }

  lemma WordIsEightBytes()
    ensures Pow256(8) == WORD
  {
    assert Pow256(4) == 0x1_0000_0000;
  }

  /** The flag word of a header. */
  function FlagWord(h: Header): (w: nat) {
    (if h.writeable then 1 else 0) + (if h.consumable then 2 else 0) + (if h.end then 4 else 0)
  }

  /** The header as it lies in memory: counter, link, flags. */
  function HeaderBytes(h: Header): (bytes: seq<byte>)
    ensures |bytes| == HEADER_SIZE
  {
    WordBytes(h.counter, 8) + WordBytes(h.next, 8) + WordBytes(FlagWord(h), 8)
  }

  /** The header that lies in memory. */
  function HeaderOf(bytes: seq<byte>): (h: Header)
    requires |bytes| == HEADER_SIZE
  {
    var flags := WordOf(bytes[16..]);
    Header(WordOf(bytes[..8]), WordOf(bytes[8..16]), flags % 2 == 1, flags / 2 % 2 == 1, flags / 4 % 2 == 1)
  }

  /** The flag word of a header, bit by bit, is the flags. */
  lemma FlagWordIsDecoded(h: Header)
    ensures FlagWord(h) < WORD && Decode(h.counter, h.next, FlagWord(h) as Word) == h
  {
    if h.end {
      assert FlagWord(h) as Word == if h.consumable then (if h.writeable then 7 else 6) else if h.writeable then 5 else 4;
    } else {
      assert FlagWord(h) as Word == if h.consumable then (if h.writeable then 3 else 2) else if h.writeable then 1 else 0;
    }
  }

  /** Where the words lie: the counter at 0, the link at 8, the flags at 16, with writeable, consumable and end in the three low bits of
      their first byte. */
  lemma HeaderPlaces(h: Header)
    requires h.counter < WORD && h.next < WORD
    ensures var bytes := HeaderBytes(h);
            && WordOf(bytes[..8]) == h.counter
            && WordOf(bytes[8..16]) == h.next
            && WordOf(bytes[16..]) == (if h.writeable then 1 else 0) + (if h.consumable then 2 else 0) + (if h.end then 4 else 0)
            && bytes[16] as nat == WordOf(bytes[16..])
  {
    var bytes := HeaderBytes(h);
    WordIsEightBytes();
    WordRoundTrip(h.counter, 8);
    WordRoundTrip(h.next, 8);
    WordRoundTrip(FlagWord(h), 8);
    assert bytes[..8] == WordBytes(h.counter, 8);
    assert bytes[8..16] == WordBytes(h.next, 8);
    assert bytes[16..] == WordBytes(FlagWord(h), 8);
  }

  /** A header is read from memory as it was written, if its numbers fit into words. */
  lemma HeaderRoundTrip(h: Header)
    requires h.counter < WORD && h.next < WORD
    ensures HeaderOf(HeaderBytes(h)) == h
  {
    HeaderPlaces(h);
  }
}
