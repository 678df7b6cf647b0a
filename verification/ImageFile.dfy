/** The image file: frames of big-endian words (handc/heapi/imagfile.h, savewrit.c). */
module ImageFiles {
  import opened HeapImages

  const LOAD1_REF: nat := 0
  const LOAD1_SYMBOL: nat := 1
  const LOAD1_ARRAY8: nat := 3
  const LOAD1_ARRAY32: nat := 5

  const WORD: nat := 0x1_0000_0000

  /** HOST_TO_BIG_ENDIAN_32 */
  function Enc32(v: nat): (b: seq<byte>)
    requires v < WORD
    ensures |b| == 4
  {
    [v / 0x100_0000, v / 0x1_0000 % 0x100, v / 0x100 % 0x100, v % 0x100]
  }

  /** BIG_ENDIAN_TO_HOST_32 */
  function Dec32(b: seq<byte>, at: nat): (v: nat)
    requires at + 4 <= |b|
    ensures v < WORD
  {
    (b[at] as nat) * 0x100_0000 + (b[at + 1] as nat) * 0x1_0000 + (b[at + 2] as nat) * 0x100 + b[at + 3] as nat
  }

  lemma Recombine(v: nat)
    ensures v / 0x100_0000 * 0x100_0000 + v / 0x1_0000 % 0x100 * 0x1_0000 + v / 0x100 % 0x100 * 0x100 + v % 0x100 == v
  {
    var a := v / 0x100;
    var b := a / 0x100;
    assert v / 0x1_0000 == b && v / 0x100_0000 == b / 0x100;
  }

  lemma DecEnc(v: nat, b: seq<byte>, at: nat)
    requires v < WORD && at + 4 <= |b| && b[at..at + 4] == Enc32(v)
    ensures Dec32(b, at) == v
  {
    Recombine(v);
    var e := b[at..at + 4];
    assert e[0] == b[at] && e[1] == b[at + 1] && e[2] == b[at + 2] && e[3] == b[at + 3];
  }

  /** A frame: its size in bytes, the load mode, a preamble word, and the bytes. */
  datatype Frame = Frame(size: nat, mode: nat, preamble: nat, payload: seq<byte>)

  ghost predicate FrameOk(f: Frame) {
    f.size < WORD && f.mode < WORD && f.preamble < WORD && |f.payload| == f.size
  }

  /** ROUND_UP, to whole words. */
  function RoundUp(n: nat): (r: nat)
    ensures n <= r < n + 4 && r % 4 == 0
  {
    (n + 3) / 4 * 4
  }

  function Pad(b: seq<byte>): seq<byte> { b + seq(RoundUp(|b|) - |b|, i => 0) }

  function EncFrame(f: Frame): (b: seq<byte>)
    requires FrameOk(f)
    ensures |b| == RoundUp(f.size + 12)
  {
    Enc32(f.size) + Enc32(f.mode) + Enc32(f.preamble) + Pad(f.payload)
  }

  /** A string of one byte, 7, with the preamble 0x01020304: three words, the highest byte first, and padding. */
  lemma FrameBytes()
    ensures EncFrame(Frame(1, LOAD1_ARRAY8, 0x0102_0304, [7])) == [0, 0, 0, 1, 0, 0, 0, 3, 1, 2, 3, 4, 7, 0, 0, 0]
  {
    var f := Frame(1, LOAD1_ARRAY8, 0x0102_0304, [7]);
    assert Enc32(1) == [0, 0, 0, 1] && Enc32(3) == [0, 0, 0, 3] && Enc32(0x0102_0304) == [1, 2, 3, 4];
    assert Pad(f.payload) == [7, 0, 0, 0];
  }

  ghost predicate FramesOk(fs: seq<Frame>) { forall i | 0 <= i < |fs| :: FrameOk(fs[i]) }

  function EncAll(fs: seq<Frame>): seq<byte>
    requires FramesOk(fs)
  {
    if fs == [] then [] else EncAll(fs[..|fs| - 1]) + EncFrame(fs[|fs| - 1])
  }

  lemma EncNext(fs: seq<Frame>, f: Frame)
    requires FramesOk(fs) && FrameOk(f)
    ensures FramesOk(fs + [f]) && EncAll(fs + [f]) == EncAll(fs) + EncFrame(f)
  {
    var t := fs + [f];
    assert t[..|t| - 1] == fs;
  }

  /** Where frame i starts. */
  function Start(fs: seq<Frame>, i: nat): nat
    requires FramesOk(fs) && i <= |fs|
  {
    |EncAll(fs[..i])|
  }

  /** Walking by the rounded sizes visits the frames one after the other. */
  lemma {:induction false} FrameAt(fs: seq<Frame>, i: nat)
    requires FramesOk(fs) && i < |fs|
    ensures Start(fs, i + 1) == Start(fs, i) + RoundUp(fs[i].size + 12) <= |EncAll(fs)|
    ensures EncAll(fs)[Start(fs, i)..Start(fs, i + 1)] == EncFrame(fs[i])
  {
    hide EncFrame, FrameOk;
    var n := |fs| - 1;
    assert fs[..i + 1][..i] == fs[..i];
    if i == n {
      assert fs[..i + 1] == fs;
    } else {
      FrameAt(fs[..n], i);
      assert fs[..n][..i] == fs[..i] && fs[..n][..i + 1] == fs[..i + 1];
    }
  }

  /** Reading the three words of a frame and its bytes gives back what was written. */
  lemma ReadFrame(b: seq<byte>, at: nat, f: Frame)
    requires FrameOk(f) && at + RoundUp(f.size + 12) <= |b| && b[at..at + RoundUp(f.size + 12)] == EncFrame(f)
    ensures at + 12 + f.size <= |b|
    ensures Dec32(b, at) == f.size && Dec32(b, at + 4) == f.mode && Dec32(b, at + 8) == f.preamble
    ensures b[at + 12..at + 12 + f.size] == f.payload
  {
    var e := b[at..at + RoundUp(f.size + 12)];
    Pieces(f);
    SubSlice(b, at, |e|, 0, 4);
    SubSlice(b, at, |e|, 4, 8);
    SubSlice(b, at, |e|, 8, 12);
    SubSlice(b, at, |e|, 12, 12 + f.size);
    hide EncFrame;
    DecEnc(f.size, b, at);
    DecEnc(f.mode, b, at + 4);
    DecEnc(f.preamble, b, at + 8);
  }

  lemma SubSlice(b: seq<byte>, at: nat, n: nat, i: nat, k: nat)
    requires at + n <= |b| && i <= k <= n
    ensures b[at..at + n][i..k] == b[at + i..at + k]
  {
    var c := b[at..at + n];
    assert forall x | 0 <= x < k - i :: c[i..k][x] == c[i + x] == b[at + (i + x)] == b[at + i..at + k][x];
  }

  lemma Pieces(f: Frame)
    requires FrameOk(f)
    ensures var e := EncFrame(f);
      && e[0..4] == Enc32(f.size) && e[4..8] == Enc32(f.mode) && e[8..12] == Enc32(f.preamble)
      && 12 + f.size <= |e| && e[12..12 + f.size] == f.payload
  {
    var p := Pad(f.payload);
    assert EncFrame(f) == Enc32(f.size) + (Enc32(f.mode) + (Enc32(f.preamble) + p));
    assert p[..f.size] == f.payload;
  }

  ghost predicate Words32(ws: seq<nat>) { forall i | 0 <= i < |ws| :: ws[i] < WORD }

  function EncWords(ws: seq<nat>): (b: seq<byte>)
    requires Words32(ws)
    ensures |b| == 4 * |ws|
  {
    if ws == [] then [] else EncWords(ws[..|ws| - 1]) + Enc32(ws[|ws| - 1])
  }

  lemma EncWordsNext(ws: seq<nat>, w: nat)
    requires Words32(ws) && w < WORD
    ensures Words32(ws + [w]) && EncWords(ws + [w]) == EncWords(ws) + Enc32(w)
  {
    var t := ws + [w];
    assert t[..|t| - 1] == ws;
  }

  lemma {:induction false} WordAt(ws: seq<nat>, i: nat)
    requires Words32(ws) && i < |ws|
    ensures Dec32(EncWords(ws), 4 * i) == ws[i]
  {
    var n := |ws| - 1;
    var b := EncWords(ws);
    if i == n {
      assert b[4 * i..4 * i + 4] == Enc32(ws[i]);
      DecEnc(ws[i], b, 4 * i);
    } else {
      WordAt(ws[..n], i);
      assert forall k | 0 <= k < 4 * n :: b[k] == EncWords(ws[..n])[k];
    }
  }

  /** The pointer tag marks names in the file, everything else stands for itself. */
  function RawWord(v: nat): Word { if v % 4 == 3 then Ptr(v / 4) else Imm(v) }

  function WordOf(w: Word): nat { if w.Ptr? then 4 * w.at + 3 else w.bits }

  ghost predicate WordOk(w: Word) {
    if w.Ptr? then w.at < 0x4000_0000 else w.bits < WORD && w.bits % 4 != 3
  }

  lemma RawWordOf(w: Word)
    requires WordOk(w)
    ensures WordOf(w) < WORD && RawWord(WordOf(w)) == w
  {
  }

  /** The output buffer of savewrit.c: bytes not yet written, up to a limit that grows when a
      single frame would not fit. */
  class OutputBuffer {
    var file: seq<byte>
    var buffer: seq<byte>
    var limit: nat

    ghost function Contents(): seq<byte>
      reads this
    {
      file + buffer
    }

    ghost predicate Valid()
      reads this
    {
      |buffer| <= limit
    }

    /** init_output */
    constructor (len: nat)
      ensures Valid() && Contents() == []
    {
      file, buffer, limit := [], [], len;
    }

    /** output_posn */
    method Posn() returns (n: nat)
      ensures n == |Contents()|
    {
      n := |file| + |buffer|;
    }

    /** output_flush, making room for len bytes */
    method Flush(len: nat)
      requires Valid()
      modifies this
      ensures Valid() && Contents() == old(Contents()) && buffer == [] && len <= limit
    {
      file, buffer := file + buffer, [];
      if len > limit {
        limit := len + 1024;
      }
    }

    /** output_alloc, and the bytes put there */
    method Put(b: seq<byte>)
      requires Valid()
      modifies this
      ensures Valid() && Contents() == old(Contents()) + b
    {
      if |buffer| + |b| > limit {
        Flush(|b|);
      }
      ghost var was := file + buffer;
      buffer := buffer + b;
      assert file + buffer == was + b;
    }
  }
}
