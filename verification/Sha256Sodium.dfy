/** SHA-256 with a full schedule and registers that rotate by index (external/sha256/hash_sha256_cp.c:74-145). */
module Sha256Sodium {
  import opened Hashing
  import opened Sha256Spec

  /** The other forms of Ch and Maj that this implementation uses. */
  datatype Forms<!W> = Forms(ch: (W, W, W) -> W, maj: (W, W, W) -> W)

  ghost predicate Agree<W(!new)>(A: Arith<W>, F: Forms<W>) {
    && (forall x: W, y: W, z: W :: F.ch(x, y, z) == A.ch(x, y, z))
    && (forall x: W, y: W, z: W :: F.maj(x, y, z) == A.maj(x, y, z))
  }

  /** (r + k) % 8 for r and k below 8 */
  function Cell(r: nat, k: nat): (c: nat)
    requires r < 8 && k < 8
    ensures c == (r + k) % 8
  {
    if r + k < 8 then r + k else r + k - 8
  }

  /** The registers a to h, read from index r on. */
  function RegsFrom<W>(S: seq<W>, r: nat): Regs<W>
    requires |S| == 8 && r < 8
  {
    Regs(S[r], S[Cell(r, 1)], S[Cell(r, 2)], S[Cell(r, 3)], S[Cell(r, 4)], S[Cell(r, 5)], S[Cell(r, 6)], S[Cell(r, 7)])
  }

  lemma RoundSums<W(!new)>(A: Arith<W>, h: W, s: W, c: W, w: W, k: W)
    requires Lawful(A)
    ensures A.add(h, A.add(A.add(s, c), A.add(w, k))) == A.add(A.add(A.add(A.add(h, s), c), k), w)
  {
    Laws(A, w, k, w);
    Laws(A, A.add(s, c), k, w);
    Laws(A, h, A.add(A.add(s, c), k), w);
    Laws(A, h, A.add(s, c), k);
    Laws(A, h, s, c);
  }

  /** d and h replaced: read from one place earlier, these are the registers after the round. */
  lemma Rotated<W>(S: seq<W>, r: nat, d: W, h: W)
    requires |S| == 8 && r < 8
    ensures var T := S[Cell(r, 3) := d][Cell(r, 7) := h];
      var q := RegsFrom(S, r);
      RegsFrom(T, Cell(r, 7)) == Regs(h, q.a, q.b, q.c, d, q.e, q.f, q.g)
  {
  }

  /** The three statements of RND, on the register values. */
  method Rnd<W(!new)>(A: Arith<W>, F: Forms<W>, q: Regs<W>, w: W, k: W) returns (d: W, h: W)
    requires Lawful(A) && Agree(A, F)
    ensures Round(A, q, w, k) == Regs(h, q.a, q.b, q.c, d, q.e, q.f, q.g)
  {
    h := A.add(q.h, A.add(A.add(A.sum1(q.e), F.ch(q.e, q.f, q.g)), A.add(w, k)));
    RoundSums(A, q.h, A.sum1(q.e), F.ch(q.e, q.f, q.g), w, k);
    d := A.add(q.d, h);
    h := A.add(h, A.add(A.sum0(q.a), F.maj(q.a, q.b, q.c)));
  }

  /** One round in place, the roles of the eight cells given by r. */
  method RoundAt<W(!new)>(A: Arith<W>, F: Forms<W>, S: array<W>, r: nat, w: W, k: W)
    requires Lawful(A) && Agree(A, F) && S.Length == 8 && r < 8
    modifies S
    ensures RegsFrom(S[..], Cell(r, 7)) == Round(A, RegsFrom(old(S[..]), r), w, k)
  {
    ghost var S0 := S[..];
    var d, h := Rnd(A, F, RegsFrom(S[..], r), w, k);
    S[Cell(r, 3)] := d;
    S[Cell(r, 7)] := h;
    assert S[..] == S0[Cell(r, 3) := d][Cell(r, 7) := h];
    Rotated(S0, r, d, h);
  }

  /** Where register a stands before round i of a group. */
  function Start(i: nat): (r: nat)
    requires i <= 16
    ensures r < 8
  {
    (64 - i) % 8
  }

  lemma StartNext(i: nat)
    requires i < 16
    ensures Start(i + 1) == Cell(Start(i), 7)
  {
  }

  /** All 64 rounds: the registers before and after each, and its word. */
  ghost predicate Trace<W>(A: Arith<W>, rs: seq<Regs<W>>, ws: seq<W>) {
    |A.k| == 64 == |ws| && |rs| == 65 && forall t :: 0 <= t < 64 ==> Follows(A, rs, ws, t)
  }

  ghost predicate Follows<W>(A: Arith<W>, rs: seq<Regs<W>>, ws: seq<W>, t: nat)
    requires |A.k| == 64 == |ws| && |rs| == 65 && t < 64
  {
    rs[t + 1] == Round(A, rs[t], ws[t], A.k[t])
  }

  lemma MakeTrace<W(!new)>(A: Arith<W>, r0: Regs<W>, d: Block) returns (rs: seq<Regs<W>>, ws: seq<W>)
    requires |A.k| == 64
    ensures Trace(A, rs, ws) && rs[0] == r0 && rs[64] == Rounds(A, r0, d, 64)
    ensures forall t :: 0 <= t < 64 ==> ws[t] == Schedule(A, d, t)
  {
    rs := seq(65, t requires 0 <= t < 65 => Rounds(A, r0, d, t));
    ws := seq(64, t requires 0 <= t < 64 => Schedule(A, d, t));
    forall t | 0 <= t < 64
      ensures Follows(A, rs, ws, t)
    {
      assert rs[t + 1] == Rounds(A, r0, d, t + 1);
    }
  }

  /** The cells hold registers q, register a where round i of a group expects it. */
  ghost predicate Hold<W>(S: seq<W>, i: nat, q: Regs<W>) {
    |S| == 8 && i <= 16 && RegsFrom(S, Start(i)) == q
  }

  /** RNDr: round i of the group that starts at ii. */
  method Rndr<W(!new)>(
      A: Arith<W>, F: Forms<W>, S: array<W>, w: W, i: nat, ii: nat, ghost rs: seq<Regs<W>>, ghost ws: seq<W>)
    requires Lawful(A) && Agree(A, F) && i < 16 && ii + 16 <= 64 && Trace(A, rs, ws)
    requires w == ws[ii + i] && Hold(S[..], i, rs[ii + i])
    modifies S
    ensures Hold(S[..], i + 1, rs[ii + i + 1])
  {
    StartNext(i);
    RoundAt(A, F, S, Start(i), w, A.k[i + ii]);
    assert Follows(A, rs, ws, ii + i);
  }

  /** MSCH: word i + ii + 16 of the schedule. */
  method Msch<W>(A: Arith<W>, W64: array<W>, ii: nat, i: nat, ghost d: Block)
    requires W64.Length == 64 && i < 16 && ii + 32 <= 64
    requires forall t :: 0 <= t < i + ii + 16 ==> W64[t] == Schedule(A, d, t)
    modifies W64
    ensures forall t :: 0 <= t < i + ii + 17 ==> W64[t] == Schedule(A, d, t)
  {
    var t := i + ii + 16;
    W64[t] := A.add(A.add(A.add(A.mix1(W64[t - 2]), W64[t - 7]), A.mix0(W64[t - 15])), W64[t - 16]);
  }

  /** The first n words of the schedule. */
  ghost predicate Scheduled<W>(A: Arith<W>, W64: seq<W>, d: Block, n: nat) {
    n <= |W64| && forall t :: 0 <= t < n ==> W64[t] == Schedule(A, d, t)
  }

  /** The sixteen rounds of a group. */
  method GroupRounds<W(!new)>(
      A: Arith<W>, F: Forms<W>, S: array<W>, w: seq<W>, ii: nat, ghost rs: seq<Regs<W>>, ghost ws: seq<W>)
    requires Lawful(A) && Agree(A, F) && ii + 16 <= 64 && Trace(A, rs, ws)
    requires w == ws[ii..ii + 16] && Hold(S[..], 0, rs[ii])
    modifies S
    ensures Hold(S[..], 16, rs[ii + 16])
  {
    FourRounds(A, F, S, w, 0, ii, rs, ws);
    FourRounds(A, F, S, w, 4, ii, rs, ws);
    FourRounds(A, F, S, w, 8, ii, rs, ws);
    FourRounds(A, F, S, w, 12, ii, rs, ws);
  }

  method FourRounds<W(!new)>(
      A: Arith<W>, F: Forms<W>, S: array<W>, w: seq<W>, i: nat, ii: nat, ghost rs: seq<Regs<W>>, ghost ws: seq<W>)
    requires Lawful(A) && Agree(A, F) && ii + 16 <= 64 && i <= 12 && Trace(A, rs, ws)
    requires w == ws[ii..ii + 16] && Hold(S[..], i, rs[ii + i])
    modifies S
    ensures Hold(S[..], i + 4, rs[ii + i + 4])
  {
    Rndr(A, F, S, w[i], i, ii, rs, ws);
    Rndr(A, F, S, w[i + 1], i + 1, ii, rs, ws);
    Rndr(A, F, S, w[i + 2], i + 2, ii, rs, ws);
    Rndr(A, F, S, w[i + 3], i + 3, ii, rs, ws);
  }

  /** The next sixteen words. */
  method GroupSchedule<W>(A: Arith<W>, W64: array<W>, ii: nat, ghost d: Block)
    requires W64.Length == 64 && ii + 32 <= 64 && Scheduled(A, W64[..], d, ii + 16)
    modifies W64
    ensures Scheduled(A, W64[..], d, ii + 32)
  {
    Msch(A, W64, ii, 0, d);
    Msch(A, W64, ii, 1, d);
    Msch(A, W64, ii, 2, d);
    Msch(A, W64, ii, 3, d);
    Msch(A, W64, ii, 4, d);
    Msch(A, W64, ii, 5, d);
    Msch(A, W64, ii, 6, d);
    Msch(A, W64, ii, 7, d);
    Msch(A, W64, ii, 8, d);
    Msch(A, W64, ii, 9, d);
    Msch(A, W64, ii, 10, d);
    Msch(A, W64, ii, 11, d);
    Msch(A, W64, ii, 12, d);
    Msch(A, W64, ii, 13, d);
    Msch(A, W64, ii, 14, d);
    Msch(A, W64, ii, 15, d);
  }

  lemma Slice<W>(A: Arith<W>, W64: seq<W>, ws: seq<W>, d: Block, ii: nat)
    requires ii + 16 <= 64 == |W64| == |ws| && Scheduled(A, W64, d, ii + 16)
    requires forall t :: 0 <= t < 64 ==> ws[t] == Schedule(A, d, t)
    ensures W64[ii..ii + 16] == ws[ii..ii + 16]
  {
  }

  /** The loop of lines 105-141. */
  method AllRounds<W(!new)>(
      A: Arith<W>, F: Forms<W>, S: array<W>, W64: array<W>, ghost rs: seq<Regs<W>>, ghost ws: seq<W>, ghost d: Block)
    requires Lawful(A) && Agree(A, F) && W64.Length == 64 && S != W64 && Trace(A, rs, ws) && Hold(S[..], 0, rs[0])
    requires Scheduled(A, W64[..], d, 16) && forall t :: 0 <= t < 64 ==> ws[t] == Schedule(A, d, t)
    modifies S, W64
    ensures Hold(S[..], 0, rs[64])
  {
    var ii: nat := 0;
    while true
      invariant ii in {0, 16, 32, 48}
      invariant Scheduled(A, W64[..], d, ii + 16)
      invariant Hold(S[..], 0, rs[ii])
      decreases 64 - ii
    {
      Slice(A, W64[..], ws, d, ii);
      GroupRounds(A, F, S, W64[ii..ii + 16], ii, rs, ws);
      if ii == 48 {
        break;
      }
      GroupSchedule(A, W64, ii, d);
      ii := ii + 16;
    }
  }

  /** SHA256_Transform */
  method Transform<W(!new)>(A: Arith<W>, F: Forms<W>, state: Regs<W>, block: Block) returns (state': Regs<W>)
    requires Lawful(A) && Agree(A, F)
    ensures state' == Compress(A, state, block)
  {
    var w0 := WordAt(A, block, 0);
    var W64 := new W[64](t requires 0 <= t < 64 => if t < 16 then WordAt(A, block, 4 * t) else w0);
    var S := new W[8](i requires 0 <= i < 8 => Reg(state, i));
    assert RegsFrom(S[..], 0) == state;
    ghost var rs, ws := MakeTrace(A, state, block);
    AllRounds(A, F, S, W64, rs, ws, block);
    state' := Plus(A, state, RegsFrom(S[..], 0));
  }

  function Reg<W>(r: Regs<W>, i: nat): W
    requires i < 8
  {
    [r.a, r.b, r.c, r.d, r.e, r.f, r.g, r.h][i]
  }
}
