/**
 The packet walker of a client thread and the accounting of what it sends.  `mem` is the
 memory from the start of the vector on, `rv(k)` what the k-th send returns.
 */
module PacketWalker {
  import opened Ascii

  const HEADER_LEN: nat := 24
  const MAXDATA_LEN: nat := 2048

  /** The two bytes of the mark 0x5751 at `p`, low byte first. */
  predicate Mark(mem: nat -> byte, p: nat) {
    mem(p) + 256 * mem(p + 1) == 0x5751
  }

  /** The length field of a header at `p`. */
  function Size(mem: nat -> byte, p: nat): nat {
    mem(p + 4) + 256 * mem(p + 5)
  }

  // ----- looking for the next mark -----

  /** The first of the offsets `o`, `o + 8`, ... up to 32 at which a mark stands after `p`; -1 if none. */
  function NextMark(mem: nat -> byte, p: nat, o: nat): int
    decreases 40 - o
  {
    if o > 32 then -1 else if Mark(mem, p + o) then o else NextMark(mem, p, o + 8)
  }

  /** The first two bytes of a header. */
  predicate Starts(mem: nat -> byte, p: nat) {
    mem(p) == 0x51 && mem(p + 1) == 0x57
  }

  /** Where the first header starts among the five places 0, 8, ..., 32 bytes after `p`; -1 if none does. */
  function FirstStart(mem: nat -> byte, p: nat): int {
    if Starts(mem, p) then 0
    else if Starts(mem, p + 8) then 8
    else if Starts(mem, p + 16) then 16
    else if Starts(mem, p + 24) then 24
    else if Starts(mem, p + 32) then 32
    else -1
  }

  lemma MarkExact(mem: nat -> byte, p: nat)
    ensures Mark(mem, p) <==> Starts(mem, p)
  {
  }

  lemma NextMarkExact(mem: nat -> byte, p: nat)
    ensures !Starts(mem, p) ==> NextMark(mem, p, 8) == FirstStart(mem, p)
    ensures NextMark(mem, p, 8) ==
      if Starts(mem, p + 8) then 8
      else if Starts(mem, p + 16) then 16
      else if Starts(mem, p + 24) then 24
      else if Starts(mem, p + 32) then 32
      else -1
  {
    hide Mark, Starts;
    MarkExact(mem, p + 8);
    MarkExact(mem, p + 16);
    MarkExact(mem, p + 24);
    MarkExact(mem, p + 32);
    assert NextMark(mem, p, 40) == -1;
    assert NextMark(mem, p, 24) == if Mark(mem, p + 24) then 24 else NextMark(mem, p, 32);
    assert NextMark(mem, p, 16) == if Mark(mem, p + 16) then 16 else NextMark(mem, p, 24);
  }

  /** `__find_next_header_ex__()` with its length of 32. */
  method FindNextHeader(mem: nat -> byte, p: nat) returns (offset: int)
    ensures offset == NextMark(mem, p, 8)
    ensures offset ==
      if Starts(mem, p + 8) then 8
      else if Starts(mem, p + 16) then 16
      else if Starts(mem, p + 24) then 24
      else if Starts(mem, p + 32) then 32
      else -1
  {
    NextMarkExact(mem, p);
    offset := 0;
    while true
      invariant offset in {0, 8, 16, 24}
      invariant NextMark(mem, p, 8) == NextMark(mem, p, offset + 8)
      decreases 32 - offset
    {
      offset := offset + 8;
      if Mark(mem, p + offset) {
        return;
      }
      if offset >= 32 {
        return -1;
      }
    }
  }

  // ----- the walker -----

  datatype Walk = Walk(ret: int, offered: seq<(nat, nat)>)

  /** What one round of the loop does: stop without or after offering a packet, or go on. */
  datatype Round =
    | Stop(ret: int)
    | Last(ret: int, offer: (nat, nat))
    | More(off: nat, pad: nat, sent: nat, offer: (nat, nat))

  function Gain(rv: int): nat {
    if rv > 0 then rv else 0
  }

  /** The bytes before the next header, -1 if there is none. */
  function Skip(mem: nat -> byte, off: nat): int {
    if Mark(mem, off) then 0 else NextMark(mem, off, 8)
  }

  function OneRound(mem: nat -> byte, len: nat, rv: int, off: nat, pad: nat, sent: nat): Round {
    var skip := Skip(mem, off);
    if skip < 0 then Stop(sent + pad)
    else
      var o := off + skip;
      var p := pad + skip;
      var size := Size(mem, o);
      if size < HEADER_LEN || size > MAXDATA_LEN then Stop(sent + p)
      else
        var s := sent + Gain(rv);
        var left := len - (o + size);
        if left < HEADER_LEN then Last(s + p + left, (o, size))
        else if s + p < len then More(o + size, p, s, (o, size))
        else Last(s + p, (o, size))
  }

  lemma RoundAdvances(mem: nat -> byte, len: nat, rv: int, off: nat, pad: nat, sent: nat)
    ensures var r := OneRound(mem, len, rv, off, pad, sent); r.More? ==> off < r.off <= len
  {
  }

  /** From offset `off`, with `pad` bytes skipped, `sent` bytes sent and `k` sends made so far: the value
      returned in the end and the packets still offered, as (offset, length). */
  function WalkFrom(mem: nat -> byte, len: nat, rv: nat -> int, off: nat, pad: nat, sent: nat, k: nat): Walk
    decreases len - off
  {
    RoundAdvances(mem, len, rv(k), off, pad, sent);
    match OneRound(mem, len, rv(k), off, pad, sent)
    case Stop(ret) => Walk(ret, [])
    case Last(ret, offer) => Walk(ret, [offer])
    case More(o, p, s, offer) =>
      var rest := WalkFrom(mem, len, rv, o, p, s, k + 1);
      Walk(rest.ret, [offer] + rest.offered)
  }

  /** One round of the walk, with the packets `offered` before it. */
  lemma WalkUnfold(mem: nat -> byte, len: nat, rv: nat -> int, off: nat, pad: nat, sent: nat, offered: seq<(nat, nat)>)
    ensures
      var w := WalkFrom(mem, len, rv, off, pad, sent, |offered|);
      match OneRound(mem, len, rv(|offered|), off, pad, sent)
      case Stop(ret) => Walk(w.ret, offered + w.offered) == Walk(ret, offered)
      case Last(ret, offer) => Walk(w.ret, offered + w.offered) == Walk(ret, offered + [offer])
      case More(o, p, s, offer) =>
        var v := WalkFrom(mem, len, rv, o, p, s, |offered + [offer]|);
        Walk(w.ret, offered + w.offered) == Walk(v.ret, offered + [offer] + v.offered)
  {
    hide OneRound;
    var round := OneRound(mem, len, rv(|offered|), off, pad, sent);
    if round.More? {
      var v := WalkFrom(mem, len, rv, round.off, round.pad, round.sent, |offered| + 1);
      assert offered + ([round.offer] + v.offered) == offered + [round.offer] + v.offered;
    }
  }

  function WalkAll(mem: nat -> byte, len: nat, rv: nat -> int): Walk {
    if len < HEADER_LEN then Walk(0, []) else WalkFrom(mem, len, rv, 0, 0, 0, 0)
  }

  /** The body of the loop: find the header, offer the packet to the send that returns `rv`, move on. */
  method SendRound(mem: nat -> byte, len: nat, rv: int, off: nat, pad: nat, sent: nat) returns (round: Round)
    ensures round == OneRound(mem, len, rv, off, pad, sent)
  {
    hide NextMark, Mark, Size;
    var pdata, padLen, sendokLen := off, pad, sent;
    if !Mark(mem, pdata) {
      var r := FindNextHeader(mem, pdata);
      NextMarkRange(mem, pdata, 8);
      if r > 0 {
        pdata := pdata + r;
        padLen := padLen + r;
      } else {
        return Stop(sendokLen + padLen);
      }
    }
    var payloadLen := Size(mem, pdata);
    if payloadLen < HEADER_LEN || payloadLen > MAXDATA_LEN {
      return Stop(sendokLen + padLen);
    }
    var offer := (pdata, payloadLen);
    if rv > 0 {
      sendokLen := sendokLen + rv;
    }
    pdata := pdata + payloadLen;
    var leftLen := len - pdata;
    if leftLen < HEADER_LEN {
      return Last(sendokLen + padLen + leftLen, offer);
    }
    if sendokLen + padLen < len {
      return More(pdata, padLen, sendokLen, offer);
    }
    return Last(sendokLen + padLen, offer);
  }

  /** `_data_send_package_()`. */
  method DataSendPackage(mem: nat -> byte, len: nat, rv: nat -> int) returns (ret: int, offered: seq<(nat, nat)>)
    ensures Walk(ret, offered) == WalkAll(mem, len, rv)
  {
    offered := [];
    if len < HEADER_LEN {
      return 0, [];
    }
    ghost var all := WalkAll(mem, len, rv);
    hide WalkFrom, OneRound, WalkAll;
    var pdata, padLen, sendokLen := 0, 0, 0;
    while true
      invariant 0 <= pdata <= len
      invariant var w := WalkFrom(mem, len, rv, pdata, padLen, sendokLen, |offered|);
        all == Walk(w.ret, offered + w.offered)
      decreases len - pdata
    {
      WalkUnfold(mem, len, rv, pdata, padLen, sendokLen, offered);
      RoundAdvances(mem, len, rv(|offered|), pdata, padLen, sendokLen);
      var round := SendRound(mem, len, rv(|offered|), pdata, padLen, sendokLen);
      if round.Stop? {
        return round.ret, offered;
      }
      offered := offered + [round.offer];
      if round.Last? {
        return round.ret, offered;
      }
      pdata, padLen, sendokLen := round.off, round.pad, round.sent;
    }
  }

  lemma {:induction false} NextMarkRange(mem: nat -> byte, p: nat, o: nat)
    ensures NextMark(mem, p, o) == -1 || NextMark(mem, p, o) >= o
    decreases 40 - o
  {
    if o <= 32 {
      NextMarkRange(mem, p, o + 8);
    }
  }

  // ----- vectors laid out as the protocol does -----

  /** A packet of `size` bytes after `gap` bytes of filling. */
  datatype Packet = Packet(gap: nat, size: nat)

  /** A header with its length of 24 to 2048 bytes, and before it up to 32 bytes of filling: any bytes, as long as no
      multiple of 8 looks like a header. */
  predicate Fits(mem: nat -> byte, off: nat, p: Packet) {
    var h := off + p.gap;
    && p.gap in {0, 8, 16, 24, 32} && 24 <= p.size <= 2048
    && Starts(mem, h) && p.size == mem(h + 4) + 256 * mem(h + 5)
    && (p.gap > 0 ==> !Starts(mem, off))
    && (p.gap > 8 ==> !Starts(mem, off + 8))
    && (p.gap > 16 ==> !Starts(mem, off + 16))
    && (p.gap > 24 ==> !Starts(mem, off + 24))
  }

  /** From `off` the vector consists of the packets `ps` and a tail shorter than a header. */
  predicate Layout(mem: nat -> byte, len: nat, off: nat, ps: seq<Packet>)
    decreases |ps|
  {
    if ps == [] then off <= len < off + 24
    else Fits(mem, off, ps[0]) && Layout(mem, len, off + ps[0].gap + ps[0].size, ps[1..])
  }

  function Offers(off: nat, ps: seq<Packet>): seq<(nat, nat)>
    decreases |ps|
  {
    if ps == [] then []
    else [(off + ps[0].gap, ps[0].size)] + Offers(off + ps[0].gap + ps[0].size, ps[1..])
  }

  /** Every send takes the whole packet or nothing. */
  predicate AllOrNothing(rv: nat -> int, k: nat, ps: seq<Packet>)
    decreases |ps|
  {
    ps == [] || ((rv(k) == ps[0].size || rv(k) <= 0) && AllOrNothing(rv, k + 1, ps[1..]))
  }

  /** Bytes of the packets whose send failed. */
  function Failed(rv: nat -> int, k: nat, ps: seq<Packet>): nat
    decreases |ps|
  {
    if ps == [] then 0
    else (if rv(k) > 0 then 0 else ps[0].size) + Failed(rv, k + 1, ps[1..])
  }

  lemma FitsStart(mem: nat -> byte, off: nat, p: Packet)
    requires Fits(mem, off, p)
    ensures FirstStart(mem, off) == p.gap && Skip(mem, off) == p.gap && Size(mem, off + p.gap) == p.size
  {
    SkipExact(mem, off);
    hide Skip, Mark;
  }

  lemma {:induction false} LayoutLength(mem: nat -> byte, len: nat, off: nat, ps: seq<Packet>, rv: nat -> int, k: nat)
    requires Layout(mem, len, off, ps)
    ensures off <= len && (ps != [] ==> off + ps[0].gap + ps[0].size <= len)
    ensures Failed(rv, k, ps) <= len - off
    ensures |ps| > 1 ==> len - (off + ps[0].gap + ps[0].size) >= HEADER_LEN
    decreases |ps|
  {
    if ps != [] {
      LayoutLength(mem, len, off + ps[0].gap + ps[0].size, ps[1..], rv, k + 1);
    }
  }

  lemma RoundOnPacket(mem: nat -> byte, len: nat, rv: int, off: nat, pad: nat, sent: nat, p: Packet)
    requires Fits(mem, off, p)
    ensures
      var left := len - (off + p.gap + p.size);
      var s := sent + Gain(rv);
      OneRound(mem, len, rv, off, pad, sent) ==
        if left < HEADER_LEN then Last(s + pad + p.gap + left, (off + p.gap, p.size))
        else if s + pad + p.gap < len then More(off + p.gap + p.size, pad + p.gap, s, (off + p.gap, p.size))
        else Last(s + pad + p.gap, (off + p.gap, p.size))
  {
    hide Skip, Size, Fits;
    FitsStart(mem, off, p);
    assert HEADER_LEN <= p.size <= MAXDATA_LEN by { FitsSize(mem, off, p); }
  }

  lemma FitsSize(mem: nat -> byte, off: nat, p: Packet)
    requires Fits(mem, off, p)
    ensures HEADER_LEN <= p.size <= MAXDATA_LEN
  {
  }

  // ----- any memory -----

  /** The packets the walk comes to from `off` on, whatever the sends return. */
  function Found(mem: nat -> byte, len: nat, off: nat): seq<Packet>
    decreases len - off
  {
    var skip := FirstStart(mem, off);
    if skip < 0 then []
    else
      var size := mem(off + skip + 4) + 256 * mem(off + skip + 5);
      if size < 24 || size > 2048 then []
      else
        var next := off + skip + size;
        [Packet(skip, size)] + if len - next < 24 then [] else Found(mem, len, next)
  }

  lemma SkipExact(mem: nat -> byte, off: nat)
    ensures Skip(mem, off) == FirstStart(mem, off)
  {
    hide Mark, Starts, NextMark;
    MarkExact(mem, off);
    NextMarkExact(mem, off);
  }

  /** The bytes that packets take with their gaps. */
  function Extent(ps: seq<Packet>): nat {
    if ps == [] then 0 else ps[0].gap + ps[0].size + Extent(ps[1..])
  }

  /** What is skipped where the walk stops: the bytes before a header with a wrong length. */
  function Stray(mem: nat -> byte, off: nat): nat {
    if FirstStart(mem, off) < 0 then 0 else FirstStart(mem, off)
  }

  lemma FoundTurn(mem: nat -> byte, len: nat, off: nat)
    ensures
      var ps := Found(mem, len, off);
      if ps == [] then Skip(mem, off) < 0 || !(HEADER_LEN <= Size(mem, off + Skip(mem, off)) <= MAXDATA_LEN)
      else
        && Skip(mem, off) == ps[0].gap && Size(mem, off + ps[0].gap) == ps[0].size
        && HEADER_LEN <= ps[0].size <= MAXDATA_LEN
        && var next := off + ps[0].gap + ps[0].size;
        ps[1..] == if len - next < HEADER_LEN then [] else Found(mem, len, next)
  {
    hide Mark, NextMark, Skip, FirstStart;
    SkipExact(mem, off);
    var ps := Found(mem, len, off);
    if ps != [] {
      var next := off + ps[0].gap + ps[0].size;
      assert ps[1..] == if len - next < HEADER_LEN then [] else Found(mem, len, next);
    }
  }

  lemma RoundFound(mem: nat -> byte, len: nat, rv: int, off: nat, pad: nat, sent: nat)
    ensures
      var ps := Found(mem, len, off);
      OneRound(mem, len, rv, off, pad, sent) ==
        if ps == [] then Stop(sent + pad + Stray(mem, off))
        else
          var offer := (off + ps[0].gap, ps[0].size);
          var next := off + ps[0].gap + ps[0].size;
          var s := sent + Gain(rv);
          if len - next < HEADER_LEN then Last(s + pad + ps[0].gap + (len - next), offer)
          else if s + pad + ps[0].gap < len then More(next, pad + ps[0].gap, s, offer)
          else Last(s + pad + ps[0].gap, offer)
  {
    hide Mark, Size, NextMark, Skip, Found, FirstStart;
    FoundTurn(mem, len, off);
    SkipExact(mem, off);
  }

  /** The walk over the rest of any vector, `failed` bytes of packets having failed before. */
  lemma {:induction false} WalkFound(mem: nat -> byte, len: nat, rv: nat -> int, off: nat, pad: nat, sent: nat, k: nat,
                                     failed: nat)
    requires off + HEADER_LEN <= len && AllOrNothing(rv, k, Found(mem, len, off))
    requires sent + pad + failed == off
    ensures
      var ps := Found(mem, len, off);
      var end := off + Extent(ps);
      WalkFrom(mem, len, rv, off, pad, sent, k) ==
        Walk((if len - end < HEADER_LEN then len else end + Stray(mem, end)) - failed - Failed(rv, k, ps),
             Offers(off, ps))
    decreases len - off
  {
    hide OneRound, Found, Stray, Skip, Size;
    FoundTurn(mem, len, off);
    RoundFound(mem, len, rv(k), off, pad, sent);
    var ps := Found(mem, len, off);
    if ps != [] {
      var next := off + ps[0].gap + ps[0].size;
      var lost := if rv(k) > 0 then 0 else ps[0].size;
      if len - next >= HEADER_LEN {
        WalkFound(mem, len, rv, next, pad + ps[0].gap, sent + Gain(rv(k)), k + 1, failed + lost);
      }
    }
  }

  /** In any memory, with sends that take the whole packet or nothing: the packets found are offered in order; where
      less than a header is left the value is the length less what failed, and otherwise it counts up to where the walk
      stopped. */
  lemma WalkAnyMemory(mem: nat -> byte, len: nat, rv: nat -> int)
    requires 24 <= len && AllOrNothing(rv, 0, Found(mem, len, 0))
    ensures
      var ps := Found(mem, len, 0);
      var end := Extent(ps);
      WalkAll(mem, len, rv) ==
        Walk((if len - end < 24 then len else end + Stray(mem, end)) - Failed(rv, 0, ps), Offers(0, ps))
  {
    WalkFound(mem, len, rv, 0, 0, 0, 0, 0);
  }

  /** Bytes of the vector only. */
  predicate AllInside(offered: seq<(nat, nat)>, len: nat) {
    forall i | 0 <= i < |offered| :: offered[i].0 + offered[i].1 <= len
  }

  lemma {:induction false} FoundInside(mem: nat -> byte, len: nat, off: nat)
    requires off <= len
    ensures var ps := Found(mem, len, off);
      AllInside(Offers(off, ps), len) <==> off + Extent(ps) <= len
    decreases len - off
  {
    hide Found, Skip, Size, AllInside;
    FoundTurn(mem, len, off);
    var ps := Found(mem, len, off);
    if ps == [] {
      NoneInside(len);
    } else {
      var next := off + ps[0].gap + ps[0].size;
      OneMoreInside((off + ps[0].gap, ps[0].size), Offers(next, ps[1..]), len);
      if len - next < HEADER_LEN {
        NoneInside(len);
      } else {
        FoundInside(mem, len, next);
      }
    }
  }

  lemma NoneInside(len: nat)
    ensures AllInside([], len)
  {
  }

  lemma OneMoreInside(offer: (nat, nat), rest: seq<(nat, nat)>, len: nat)
    ensures AllInside([offer] + rest, len) <==> offer.0 + offer.1 <= len && AllInside(rest, len)
  {
    var all := [offer] + rest;
    assert forall i | 0 <= i < |rest| :: rest[i] == all[i + 1];
    assert forall i | 0 < i < |all| :: all[i] == rest[i - 1];
    assert all[0] == offer;
  }

  /** The walk offers bytes of the vector only, exactly if the last packet it comes to ends in the vector. */
  lemma OffersInside(mem: nat -> byte, len: nat, rv: nat -> int)
    requires 24 <= len && AllOrNothing(rv, 0, Found(mem, len, 0))
    ensures AllInside(WalkAll(mem, len, rv).offered, len) <==> Extent(Found(mem, len, 0)) <= len
  {
    hide Found, WalkAll;
    WalkAnyMemory(mem, len, rv);
    FoundInside(mem, len, 0);
  }

  lemma {:induction false} FailedExtent(rv: nat -> int, k: nat, ps: seq<Packet>)
    ensures Failed(rv, k, ps) <= Extent(ps)
    decreases |ps|
  {
    if ps != [] {
      FailedExtent(rv, k + 1, ps[1..]);
    }
  }

  // ----- vectors that are laid out -----

  lemma {:induction false} FoundLayout(mem: nat -> byte, len: nat, off: nat, ps: seq<Packet>)
    requires ps != [] && Layout(mem, len, off, ps)
    ensures Found(mem, len, off) == ps && off + Extent(ps) <= len < off + Extent(ps) + HEADER_LEN
    decreases |ps|
  {
    hide Found, Fits, Size, Skip;
    var next := off + ps[0].gap + ps[0].size;
    LayoutLength(mem, len, off, ps, _ => 0, 0);
    FitsFound(mem, len, off, ps[0]);
    assert ps == [ps[0]] + ps[1..];
    if ps[1..] != [] {
      FoundLayout(mem, len, next, ps[1..]);
    }
  }

  lemma FitsFound(mem: nat -> byte, len: nat, off: nat, p: Packet)
    requires Fits(mem, off, p)
    ensures var next := off + p.gap + p.size;
      Found(mem, len, off) == [p] + if len - next < HEADER_LEN then [] else Found(mem, len, next)
  {
    hide Mark, Size, NextMark, Found, Skip, FirstStart;
    FitsStart(mem, off, p);
    FoundTurn(mem, len, off);
    var ps := Found(mem, len, off);
    assert ps == [ps[0]] + ps[1..];
  }

  /** Exactly the packets are offered, in order, and the walker returns the length less what failed. */
  lemma WalkOffersPackets(mem: nat -> byte, len: nat, rv: nat -> int, ps: seq<Packet>)
    requires ps != [] && Layout(mem, len, 0, ps) && AllOrNothing(rv, 0, ps)
    ensures WalkAll(mem, len, rv) == Walk(len - Failed(rv, 0, ps), Offers(0, ps))
    ensures 0 <= Failed(rv, 0, ps) <= len
    ensures AllInside(Offers(0, ps), len)
  {
    hide WalkAll, Found;
    LayoutLength(mem, len, 0, ps, rv, 0);
    FoundLayout(mem, len, 0, ps);
    WalkAnyMemory(mem, len, rv);
    FoundInside(mem, len, 0);
  }

  /** The same bytes below `len`. */
  ghost predicate Agree(mem: nat -> byte, other: nat -> byte, len: nat) {
    forall p: nat | p < len :: mem(p) == other(p)
  }

  lemma FitsLocal(mem: nat -> byte, other: nat -> byte, len: nat, off: nat, p: Packet)
    requires Agree(mem, other, len) && Fits(mem, off, p) && off + p.gap + p.size <= len
    ensures Fits(other, off, p)
  {
  }

  lemma {:induction false} WalkLocal(mem: nat -> byte, other: nat -> byte, len: nat, rv: nat -> int,
                                     off: nat, pad: nat, sent: nat, k: nat, ps: seq<Packet>)
    requires Agree(mem, other, len) && ps != [] && Layout(mem, len, off, ps)
    ensures WalkFrom(mem, len, rv, off, pad, sent, k) == WalkFrom(other, len, rv, off, pad, sent, k)
    decreases |ps|
  {
    hide OneRound, Fits, Agree;
    LayoutLength(mem, len, off, ps, rv, k);
    FitsLocal(mem, other, len, off, ps[0]);
    RoundOnPacket(mem, len, rv(k), off, pad, sent, ps[0]);
    RoundOnPacket(other, len, rv(k), off, pad, sent, ps[0]);
    var round := OneRound(mem, len, rv(k), off, pad, sent);
    if round.More? {
      assert ps[1..] != [];
      WalkLocal(mem, other, len, rv, round.off, round.pad, round.sent, k + 1, ps[1..]);
    }
  }

  /** On a vector that is laid out the walk depends on the bytes of the vector only, whatever the sends return. */
  lemma LayoutIsLocal(mem: nat -> byte, other: nat -> byte, len: nat, rv: nat -> int, ps: seq<Packet>)
    requires Agree(mem, other, len) && Layout(mem, len, 0, ps)
    ensures WalkAll(mem, len, rv) == WalkAll(other, len, rv)
  {
    if ps != [] {
      WalkLocal(mem, other, len, rv, 0, 0, 0, 0, ps);
    }
  }

  // ----- the per-client counters -----

  /** What is handed to the walker: NULL, or memory and a length. */
  datatype Vec = NoVec | Vec(mem: nat -> byte, len: nat)

  /** The entry of a hash key, with the bytes it was asked to send. */
  class HashData {
    var sendBytes: nat

    constructor ()
      ensures sendBytes == 0
    {
      sendBytes := 0;
    }
  }

  class Statistics {
    var send: nat
    var sendErr: nat

    constructor ()
      ensures send == 0 && sendErr == 0
    {
      send, sendErr := 0, 0;
    }

    /** `_send_vec_entry()`: count the bytes for the key, hand the vector to the walker, count what it says. */
    method SendVecEntry(hasClient: bool, vec: Vec, data: HashData?, rv: nat -> int)
      returns (r: int, offered: seq<(nat, nat)>)
      modifies this, data
      ensures vec.NoVec? || vec.len == 0 || !hasClient ==>
        r == -1 && offered == [] && send == old(send) && sendErr == old(sendErr)
      ensures vec.Vec? && vec.len > 0 && hasClient ==>
        && Walk(r, offered) == WalkAll(vec.mem, vec.len, rv)
        && send == old(send) + Credit(vec.len, r).0 && sendErr == old(sendErr) + Credit(vec.len, r).1
      ensures data != null ==>
        data.sendBytes == old(data.sendBytes) + if vec.Vec? && hasClient then vec.len else 0
    {
      offered := [];
      if vec.NoVec? || vec.len == 0 || !hasClient {
        return -1, [];
      }
      if data != null {
        data.sendBytes := data.sendBytes + vec.len;
      }
      r, offered := DataSendPackage(vec.mem, vec.len, rv);
      if r > 0 {
        send := send + r;
      }
      if vec.len - r > 0 && r >= 0 {
        sendErr := sendErr + (vec.len - r);
      }
    }
  }

  /** What a vector of `len` bytes adds to the two counters when the walker returns `r`. */
  function Credit(len: nat, r: int): (nat, nat) {
    if len == 0 then (0, 0)
    else (if r > 0 then r else 0, if 0 <= r < len then len - r else 0)
  }

  /** For any memory the counters together grow by the length of the vector, exactly if the packets that failed are
      not longer than it, where less than a header was left, and otherwise if the walk stopped inside it. */
  lemma CreditExact(mem: nat -> byte, len: nat, rv: nat -> int)
    requires 24 <= len && AllOrNothing(rv, 0, Found(mem, len, 0))
    ensures
      var c := Credit(len, WalkAll(mem, len, rv).ret);
      var ps := Found(mem, len, 0);
      var end := Extent(ps);
      c.0 + c.1 == len <==>
        if len - end < 24 then Failed(rv, 0, ps) <= len else end + Stray(mem, end) - Failed(rv, 0, ps) <= len
  {
    hide Found, WalkAll, Stray, Failed;
    WalkAnyMemory(mem, len, rv);
    FailedExtent(rv, 0, Found(mem, len, 0));
  }

  /** On a well laid out vector, with or without packets, the counters together grow by its length. */
  lemma CreditIsLength(mem: nat -> byte, len: nat, rv: nat -> int, ps: seq<Packet>)
    requires Layout(mem, len, 0, ps) && AllOrNothing(rv, 0, ps)
    ensures var c := Credit(len, WalkAll(mem, len, rv).ret); c.0 + c.1 == len
    ensures ps != [] ==> Credit(len, WalkAll(mem, len, rv).ret).1 == Failed(rv, 0, ps)
    ensures ps == [] ==> Credit(len, WalkAll(mem, len, rv).ret).1 == len
  {
    if ps != [] {
      WalkOffersPackets(mem, len, rv, ps);
      LayoutLength(mem, len, 0, ps, rv, 0);
    }
  }

  // ----- vectors that are not -----

  /** 24 bytes without a mark, and a mark behind them: the offer is the memory behind the vector. */
  lemma MarkBehindIsOffered(rv: nat -> int)
    ensures
      var mem: nat -> byte := p => if p == 24 then 0x51 else if p == 25 then 0x57 else if p == 28 then 24 else 0;
      WalkAll(mem, 24, rv).offered == [(24, 24)] && !AllInside([(24, 24)], 24)
  {
    var mem: nat -> byte := p => if p == 24 then 0x51 else if p == 25 then 0x57 else if p == 28 then 24 else 0;
    assert !Mark(mem, 0) && !Mark(mem, 8) && !Mark(mem, 16) && Mark(mem, 24);
    assert NextMark(mem, 0, 24) == 24 && NextMark(mem, 0, 16) == 24;
    assert OneRound(mem, 24, rv(0), 0, 0, 0) == Last(Gain(rv(0)), (24, 24));
    assert [(24, 24)][0].0 == 24;
  }

  /** 24 bytes whose header promises 2048, and a send that fails: nothing is credited at all. */
  lemma LongPacketIsNotCredited(rv: nat -> int)
    requires rv(0) <= 0
    ensures
      var mem: nat -> byte := p => if p == 0 then 0x51 else if p == 1 then 0x57 else if p == 5 then 8 else 0;
      Credit(24, WalkAll(mem, 24, rv).ret) == (0, 0)
  {
    var mem: nat -> byte := p => if p == 0 then 0x51 else if p == 1 then 0x57 else if p == 5 then 8 else 0;
    assert Mark(mem, 0) && Size(mem, 0) == 2048;
    assert OneRound(mem, 24, rv(0), 0, 0, 0) == Last(-2024, (0, 2048));
  }
}
