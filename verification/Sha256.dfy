/** SHA-256 on 32-bit words, and that the two implementations compute the same digest. */
module Sha256 {
  import opened ByteStrings
  import opened Hashing
  import opened Sha256Spec
  import Blst = Sha256BlstCtx
  import Sodium = Sha256SodiumState
  import opened Sha256Sodium
  import opened WordBits
  import opened Sha256Constants

  function Be32(a: byte, b: byte, c: byte, d: byte): Word {
    a as int * 0x1000000 + b as int * 0x10000 + c as int * 0x100 + d as int
  }

  function Words(k: seq<Word>): Arith<Word> {
    Arith(
      (x: Word, y: Word) => Add(x, y),
      (x: Word) => Sum0(x),
      (x: Word) => Sum1(x),
      (x: Word) => Mix0(x),
      (x: Word) => Mix1(x),
      (x: Word, y: Word, z: Word) => Ch(x, y, z),
      (x: Word, y: Word, z: Word) => Maj(x, y, z),
      (a: byte, b: byte, c: byte, d: byte) => Be32(a, b, c, d),
      k)
  }

  function Short(): Forms<Word> {
    Forms((x: Word, y: Word, z: Word) => ChShort(x, y, z), (x: Word, y: Word, z: Word) => MajShort(x, y, z))
  }

  lemma WordsLawful(k: seq<Word>)
    requires |k| == 64
    ensures Lawful(Words(k))
  {
    forall x: Word, y: Word, z: Word
      ensures Words(k).add(Words(k).add(x, y), z) == Words(k).add(x, Words(k).add(y, z))
    {
      AddLaws(x, y, z);
    }
    forall x: Word, y: Word
      ensures Words(k).add(x, y) == Words(k).add(y, x)
    {
      AddLaws(x, y, x);
    }
  }

  lemma FormsAgree(k: seq<Word>)
    ensures Agree(Words(k), Short())
  {
    forall x: Word, y: Word, z: Word
      ensures Short().ch(x, y, z) == Words(k).ch(x, y, z)
    {
      ChSame(x, y, z);
    }
    forall x: Word, y: Word, z: Word
      ensures Short().maj(x, y, z) == Words(k).maj(x, y, z)
    {
      MajSame(x, y, z);
    }
  }

  /** sha256_emit and be32enc_vect */
  function Emit(r: Regs<Word>): seq<byte> {
    BeWords([r.a, r.b, r.c, r.d, r.e, r.f, r.g, r.h])
  }

  function WordBytes(x: Word): (d: seq<byte>)
    ensures |d| == 4
  {
    [x / 0x1000000, x / 0x10000 % 256, x / 0x100 % 256, x % 256]
  }

  /** The bytes of a word, most significant first, and back. */
  lemma WordThereAndBack(x: Word, a: byte, b: byte, c: byte, d: byte)
    ensures var s := WordBytes(x); Be32(s[0], s[1], s[2], s[3]) == x
    ensures WordBytes(Be32(a, b, c, d)) == [a, b, c, d]
  {
    var h, l := x / 0x10000, x % 0x10000;
    assert h / 256 == x / 0x1000000 && h % 256 == x / 0x10000 % 256;
    assert l / 256 == x / 0x100 % 256 && l % 256 == x % 256;
    var w := Be32(a, b, c, d);
    assert w / 0x1000000 == a && w / 0x10000 == a * 256 + b && w / 0x100 == (a * 256 + b) * 256 + c;
  }

  function BeWords(ws: seq<Word>): (d: seq<byte>)
    ensures |d| == 4 * |ws|
  {
    if ws == [] then [] else BeWords(ws[..|ws| - 1]) + WordBytes(ws[|ws| - 1])
  }

  /** Every word stands in its place. */
  lemma {:induction false} BeWordsAt(ws: seq<Word>, i: nat)
    requires i < |ws|
    ensures BeWords(ws)[4 * i..4 * i + 4] == WordBytes(ws[i])
  {
    var n := |ws| - 1;
    if i < n {
      BeWordsAt(ws[..n], i);
      assert BeWords(ws)[4 * i..4 * i + 4] == BeWords(ws[..n])[4 * i..4 * i + 4];
    }
  }

  /** The digest of a message: its padded form folded through the block function. */
  ghost function Sha256(m: seq<byte>): seq<byte> {
    Emit(Digest(Words(K), INITIAL, m))
  }

  /** Any split into updates gives blst's digest of the whole. */
  method HashWithBlst(chunks: seq<seq<byte>>) returns (md: seq<byte>)
    ensures md == Sha256(Joined(chunks))
  {
    WordsLawful(K);
    var ctx := new Blst.Ctx(Words(K), INITIAL);
    for i := 0 to |chunks|
      invariant ctx.Valid() && fresh(ctx) && fresh(ctx.buf) && ctx.A == Words(K) && ctx.iv == INITIAL
      invariant ctx.msg == Joined(chunks[..i])
    {
      ctx.Update(chunks[i]);
      assert chunks[..i + 1][..i] == chunks[..i];
    }
    assert chunks[..|chunks|] == chunks;
    var h := ctx.Final();
    md := Emit(h);
  }

  /** The other implementation gives the same bytes, whatever the split. */
  method HashWithSodium(chunks: seq<seq<byte>>) returns (md: seq<byte>)
    ensures md == Sha256(Joined(chunks))
  {
    WordsLawful(K);
    FormsAgree(K);
    var st := new Sodium.State(Words(K), Short(), INITIAL, 0);
    for i := 0 to |chunks|
      invariant st.Valid() && fresh(st) && fresh(st.buf) && st.A == Words(K) && st.iv == INITIAL
      invariant st.msg == Joined(chunks[..i])
    {
      st.Update(chunks[i]);
      assert chunks[..i + 1][..i] == chunks[..i];
    }
    assert chunks[..|chunks|] == chunks;
    var h := st.Final();
    md := Emit(h);
  }
}
