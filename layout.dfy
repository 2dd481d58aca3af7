/** The persisted format of a section store: every word as four bytes, most
    significant byte first, with nothing between words or sections. */
module Layout {

  /** The 8-bit field of `word` whose least significant bit is `lsb`, i.e. what
      `Bitpack_getu(word, 8, lsb)` yields and `fputc` writes. */
  function ByteAt(word: bv32, lsb: bv32): bv8
    requires lsb <= 24
  {
    ((word >> lsb) & 0xFF) as bv8
  }

  /** The four bytes written for one word, in output order. */
  function WordBytes(w: bv32): (bs: seq<bv8>)
    ensures |bs| == 4
  {
    [ByteAt(w, 24), ByteAt(w, 16), ByteAt(w, 8), ByteAt(w, 0)]
  }

  /** Reads a word back from four bytes, the first one most significant. */
  function WordOf(bs: seq<bv8>): bv32
    requires |bs| == 4
  {
    ((bs[0] as bv32) << 24) | ((bs[1] as bv32) << 16) | ((bs[2] as bv32) << 8) | (bs[3] as bv32)
  }

  /** Byte `k` of the group written for `w` is bits 8*(3-k) .. 8*(3-k)+7 of `w`:
      the most significant byte comes first. */
  lemma WordBytesBigEndian(w: bv32, k: nat)
    requires k < 4
    ensures WordBytes(w)[k] == ((w >> (24 - 8 * k as bv32)) & 0xFF) as bv8
  {
  }

  /** Reassembling the four bytes written for a word gives the word back. */
  lemma WordBytesRoundTrip(w: bv32)
    ensures WordOf(WordBytes(w)) == w
  {
  }

  /** Every group of four bytes is the group written for exactly one word. */
  lemma WordOfRoundTrip(bs: seq<bv8>)
    requires |bs| == 4
    ensures WordBytes(WordOf(bs)) == bs
  {
  }

  /** The bytes written for a sequence of words, in order. */
  function SectionBytes(ws: seq<bv32>): (bs: seq<bv8>)
    ensures |bs| == 4 * |ws|
  {
    if ws == [] then [] else SectionBytes(ws[..|ws| - 1]) + WordBytes(ws[|ws| - 1])
  }

  /** Splits a byte stream into four-byte groups and reads a word from each. */
  function DecodeWords(bs: seq<bv8>): (ws: seq<bv32>)
    requires |bs| % 4 == 0
    ensures |ws| == |bs| / 4
  {
    if bs == [] then [] else DecodeWords(bs[..|bs| - 4]) + [WordOf(bs[|bs| - 4..])]
  }

  /** Serialising words and then reading four-byte groups gives the words back. */
  lemma {:induction false} SectionBytesDecode(ws: seq<bv32>)
    ensures DecodeWords(SectionBytes(ws)) == ws
  {
    if ws != [] {
      var init, last := ws[..|ws| - 1], ws[|ws| - 1];
      var bs := SectionBytes(ws);
      assert bs[..|bs| - 4] == SectionBytes(init);
      assert bs[|bs| - 4..] == WordBytes(last);
      SectionBytesDecode(init);
      WordBytesRoundTrip(last);
      assert ws == init + [last];
    }
  }

  /** Byte `k` of word `i` sits at offset 4*i + k of the output and is the
      field of that word at bit 8*(3-k). */
  lemma {:induction false} SectionBytesAt(ws: seq<bv32>, i: nat, k: nat)
    requires i < |ws| && k < 4
    ensures SectionBytes(ws)[4 * i + k] == WordBytes(ws[i])[k]
  {
    var init := ws[..|ws| - 1];
    if i < |ws| - 1 {
      SectionBytesAt(init, i, k);
    }
  }

  /** Serialisation distributes over concatenation of word sequences. */
  lemma {:induction false} SectionBytesAppend(a: seq<bv32>, b: seq<bv32>)
    ensures SectionBytes(a + b) == SectionBytes(a) + SectionBytes(b)
  {
    if b == [] {
      assert a + b == a;
    } else {
      var b' := b[..|b| - 1];
      assert (a + b)[..|a + b| - 1] == a + b';
      assert (a + b)[|a + b| - 1] == b[|b| - 1];
      SectionBytesAppend(a, b');
    }
  }

  /** The byte `write_section` writes on the inner step counting down from
      `j`: the field at bit (j - 1) * 8. */
  function StepByte(w: bv32, j: int): bv8
    requires 1 <= j <= 4
  {
    ByteAt(w, ((j - 1) * 8) as bv32)
  }

  /** The bytes written by the inner steps counting down from 4 to j + 1. */
  function StepBytes(w: bv32, j: int): (bs: seq<bv8>)
    requires 0 <= j <= 4
    ensures |bs| == 4 - j
    decreases 4 - j
  {
    if j == 4 then [] else StepBytes(w, j + 1) + [StepByte(w, j + 1)]
  }

  /** The four inner steps write exactly the big-endian group of the word. */
  lemma StepBytesAreWordBytes(w: bv32)
    ensures StepBytes(w, 0) == WordBytes(w)
  {
  }

  /** The inner loop of `write_section`: writes the fields of `word` at bits
      24, 16, 8 and 0, in that order. */
  method WriteWord(word: bv32, output: seq<bv8>) returns (written: seq<bv8>)
    ensures written == output + WordBytes(word)
  {
    written := output;
    var j := 4;
    while j > 0
      invariant 0 <= j <= 4
      invariant written == output + StepBytes(word, j)
    {
      written := written + [StepByte(word, j)];
      j := j - 1;
    }
    StepBytesAreWordBytes(word);
  }

  /** `write_section`: writes the words of one section, in order, each as its
      four bytes. */
  method WriteSection(words: seq<bv32>, output: seq<bv8>) returns (written: seq<bv8>)
    ensures written == output + SectionBytes(words)
  {
    written := output;
    var i := 0;
    while i < |words|
      invariant 0 <= i <= |words|
      invariant written == output + SectionBytes(words[..i])
    {
      written := WriteWord(words[i], written);
      assert words[..i + 1][..i] == words[..i];
      i := i + 1;
    }
    assert words[..|words|] == words;
  }
}
