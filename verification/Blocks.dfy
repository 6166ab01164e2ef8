/** Disk blocks as byte sequences, and the little-endian 32-bit words that log
    headers and indirect blocks store in them. */
module Blocks {
  import opened Params

  const BSIZE: nat := 512
  const WORDS: nat := BSIZE / 4  // 32-bit words in a block

  type Block = b: seq<Byte> | |b| == BSIZE witness seq(BSIZE, _ => 0)
  type Disk = seq<Block>

  const ZERO_BLOCK: Block := seq(BSIZE, _ => 0)

  /** The word stored in four bytes, least significant first. */
  function FromBytes(b0: Byte, b1: Byte, b2: Byte, b3: Byte): (w: Word)
  {
    var w: int := b0 as int + 0x100 * (b1 as int) + 0x1_0000 * (b2 as int) + 0x100_0000 * (b3 as int);
    w
  }

  /** The i-th word of a block, as `((uint*)bp->data)[i]` reads it. */
  function WordAt(b: Block, i: nat): (w: Word)
    requires i < WORDS
  {
    FromBytes(b[4 * i], b[4 * i + 1], b[4 * i + 2], b[4 * i + 3])
  }

  /** The block after `((uint*)bp->data)[i] = w`. */
  function WithWord(b: Block, i: nat, w: Word): (r: Block)
    requires i < WORDS
  {
    var w1 := w / 0x100;
    var w2 := w1 / 0x100;
    b[..4 * i] + [w % 0x100, w1 % 0x100, w2 % 0x100, w2 / 0x100] + b[4 * i + 4..]
  }

  lemma WordAfter(b: Block, i: nat, w: Word, j: nat)
    requires i < WORDS && j < WORDS
    ensures WordAt(WithWord(b, i, w), j) == if j == i then w else WordAt(b, j)
  {
  }

  lemma ZeroWords(i: nat)
    requires i < WORDS
    ensures WordAt(ZERO_BLOCK, i) == 0
  {
  }

  /** The words `ws`, stored from word `i` on. */
  function PutWords(b: Block, i: nat, ws: seq<Word>): (r: Block)
    requires i + |ws| <= WORDS
    decreases |ws|
  {
    if ws == [] then b else PutWords(WithWord(b, i, ws[0]), i + 1, ws[1..])
  }

  lemma {:induction false} WordAfterPut(b: Block, i: nat, ws: seq<Word>, j: nat)
    requires i + |ws| <= WORDS && j < WORDS
    ensures WordAt(PutWords(b, i, ws), j) == if i <= j < i + |ws| then ws[j - i] else WordAt(b, j)
    decreases |ws|
  {
    if ws != [] {
      WordAfterPut(WithWord(b, i, ws[0]), i + 1, ws[1..], j);
      WordAfter(b, i, ws[0], j);
    }
  }
}
