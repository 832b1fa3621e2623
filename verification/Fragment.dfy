/** fragment.c with its structures updated in place, proved against the functions of the model. */
module Fragments {
  import opened IntegerOps
  import opened Buffers
  import M = FragmentModel
  import R = FragmentRing

  /** struct fragment_list: the ring of reassembly slots. */
  class FragmentList {
    var seqId: int
    var index: int
    const fragments: array<R.Fragment>

    ghost predicate Valid()
      reads this, fragments
    {
      0 <= seqId < M.N_SEQ_ID && 0 <= index < M.N_FRAG_BUF && fragments.Length == M.N_FRAG_BUF
      && forall i | 0 <= i < M.N_FRAG_BUF :: R.FragmentOk(fragments[i])
    }

    ghost function View(): (l: R.FragList)
      requires Valid()
      reads this, fragments
      ensures R.ListOk(l)
    {
      R.FragList(seqId, index, fragments[..])
    }

    /** A cleared list with room for `room` bytes in every slot. */
    constructor (room: nat)
      ensures Valid() && fresh(fragments)
      ensures seqId == 0 && index == 0
      ensures forall i | 0 <= i < M.N_FRAG_BUF :: !fragments[i].defined && |fragments[i].room| == room
    {
      seqId, index := 0, 0;
      var empty := R.Fragment(false, 0, R.NoBits(), 0, seq(room, _ => 0), 0);
      fragments := new R.Fragment[M.N_FRAG_BUF](_ => empty);
    }

    /** fragment_list_get_buf, as the index of the slot. */
    method GetBuf(wanted: nat) returns (slot: nat)
      requires Valid() && wanted < M.N_SEQ_ID
      modifies this, fragments
      ensures Valid() && (View(), slot) == R.GetBuf(old(View()), wanted)
    {
      var diff := ModuloSubtract(wanted, seqId, M.N_SEQ_ID);
      if Abs(diff) >= M.N_FRAG_BUF {
        var i := 0;
        ghost var was := fragments[..];
        while i < M.N_FRAG_BUF
          invariant 0 <= i <= M.N_FRAG_BUF == fragments.Length == |was|
          invariant forall k | 0 <= k < M.N_FRAG_BUF :: R.FragmentOk(was[k])
          invariant forall k | 0 <= k < M.N_FRAG_BUF ::
                      fragments[k] == if k < i then was[k].(defined := false) else was[k]
        {
          fragments[i] := fragments[i].(defined := false);
          i := i + 1;
        }
        index := 0;
        seqId := wanted;
        diff := 0;
        assert fragments[..] == R.Undefined(was);
      }
      ghost var start := diff;
      ghost var goal := if diff > 0 then R.Turns(View(), diff) else View();
      while diff > 0
        invariant Valid() && goal == if diff > 0 then R.Turns(View(), diff) else View()
        invariant if start > 0 then 0 <= diff <= start else diff == start
        decreases diff
      {
        ghost var before := View();
        index := ModuloAdd(index, 1, M.N_FRAG_BUF);
        fragments[index] := fragments[index].(defined := false);
        seqId := ModuloAdd(seqId, 1, M.N_SEQ_ID);
        assert View() == R.Turn(before);
        diff := diff - 1;
      }
      slot := ModuloAdd(index, diff, M.N_FRAG_BUF);
    }

    /** fragment_ttl_reap. */
    method TtlReap(now: int)
      requires Valid()
      modifies fragments
      ensures Valid() && View() == R.TtlReap(old(View()), now)
    {
      var i := 0;
      while i < M.N_FRAG_BUF
        invariant 0 <= i <= M.N_FRAG_BUF == fragments.Length
        invariant forall k | 0 <= k < M.N_FRAG_BUF ::
                    fragments[k] == if k < i then R.Aged(old(fragments[k]), now) else old(fragments[k])
      {
        if fragments[i].defined && fragments[i].timestamp + M.FRAG_TTL_SEC <= now {
          fragments[i] := fragments[i].(defined := false);
        }
        i := i + 1;
      }
      assert fragments[..] == R.TtlReap(old(View()), now).frags;
    }
  }

  /** struct fragment_master. */
  class FragmentMaster {
    var outgoingSeqId: nat
    var outgoingFragSize: nat
    var outgoingFragId: nat
    var outgoing: seq<byte>
    const incoming: FragmentList

    ghost predicate Valid()
      reads this, incoming, incoming.fragments
    {
      outgoingSeqId < M.N_SEQ_ID && incoming.Valid()
    }

    ghost function Sender(): M.Out
      reads this
    {
      M.Out(outgoing, outgoingSeqId, outgoingFragId, outgoingFragSize)
    }

    /** fragment_init; the first sequence id is any random one. */
    constructor (random: nat, room: nat)
      ensures Valid() && fresh(incoming) && fresh(incoming.fragments)
      ensures Sender() == M.Out([], random % M.N_SEQ_ID, 0, 0)
    {
      outgoingSeqId := random % M.N_SEQ_ID;
      outgoingFragSize, outgoingFragId, outgoing := 0, 0, [];
      incoming := new FragmentList(room);
    }

    /** fragment_ready_to_send. */
    method ReadyToSend() returns (ready: bool, packet: seq<byte>)
      requires Valid()
      modifies `outgoing, `outgoingFragId
      ensures Valid() && ready == (old(outgoing) != [])
      ensures if ready then (Sender(), packet) == M.ReadyToSend(old(Sender())) else unchanged(this) && packet == []
    {
      if outgoing == [] {
        return false, [];
      }
      var size := outgoingFragSize;
      var last := false;
      if |outgoing| <= size {
        size := |outgoing|;
        last := true;
      }
      packet := M.Packet(if last then M.FRAG_YES_LAST else M.FRAG_YES_NOTLAST,
                         outgoingSeqId, outgoingFragId, outgoingFragSize, outgoing[..size]);
      outgoing := outgoing[size..];
      outgoingFragId := outgoingFragId + 1;
      return true, packet;
    }

    /** fragment_outgoing; `limit` is the dynamic payload size of the frame. */
    method ProcessOutgoing(buf: seq<byte>, limit: nat) returns (packet: seq<byte>)
      requires Valid() && 4 <= limit
      modifies `outgoing, `outgoingSeqId, `outgoingFragId, `outgoingFragSize
      ensures Valid() && (Sender(), packet) == M.Outgoing(old(Sender()), buf, limit)
    {
      if |buf| == 0 {
        return [];
      }
      if |buf| > limit {
        outgoingFragSize := M.OptimalFragmentSize(|buf|, limit);
        if |buf| > outgoingFragSize * M.MAX_FRAGS {
          return [];
        }
        outgoing := buf;
        outgoingSeqId := ModuloAdd(outgoingSeqId, 1, M.N_SEQ_ID);
        outgoingFragId := 0;
        var ready;
        ready, packet := ReadyToSend();
      } else {
        packet := M.Packet(M.FRAG_WHOLE, 0, 0, 0, buf);
      }
    }

    /** fragment_incoming: what is left for the caller, empty on an error or while incomplete. */
    method ProcessIncoming(buf: seq<byte>, now: int) returns (out: seq<byte>)
      requires Valid()
      modifies incoming, incoming.fragments
      ensures Valid() && (incoming.View(), out) == R.Incoming(old(incoming.View()), buf, now)
    {
      if |buf| < 4 {
        return [];
      }
      var flags := FromU32(buf[..4]);
      var payload := buf[4..];
      var kind := M.KindOf(flags);
      if kind == M.FRAG_WHOLE {
        if flags % 0x100 != 0 {
          return [];
        }
        return payload;
      } else if kind == M.FRAG_YES_NOTLAST || kind == M.FRAG_YES_LAST {
        var n := M.FragIdOf(flags);
        var last := kind == M.FRAG_YES_LAST;
        var size := if last then M.SizeOf(flags) else |payload|;
        var slot := incoming.GetBuf(M.SeqIdOf(flags));
        if size % 4 != 0 {
          return [];
        }
        out := AcceptInto(slot, n, last, size, payload, now);
      } else {
        return [];
      }
    }

    /** The slot's part of fragment_incoming, field by field. */
    method AcceptInto(slot: nat, n: nat, last: bool, size: nat, payload: seq<byte>, now: int) returns (out: seq<byte>)
      requires Valid() && slot < M.N_FRAG_BUF
      modifies incoming.fragments
      ensures Valid()
      ensures var (frag, data) := R.Accept(old(incoming.fragments[slot]), n, last, size, payload, now);
              out == data && incoming.fragments[..] == old(incoming.fragments[..])[slot := frag]
    {
      var frag := incoming.fragments[slot];
      if !frag.defined || frag.maxFragSize != size {
        frag := frag.(defined := true, maxFragSize := size, received := R.NoBits(), len := 0);
      }
      if n * size + |payload| > |frag.room| {
        incoming.fragments[slot] := frag;
        return [];
      }
      frag := frag.(room := R.Spliced(frag.room, n * size, payload),
                    len := MaxInt(frag.len, n * size + |payload|));
      frag := frag.(received := R.Mark(frag.received, n, last), timestamp := now);
      if R.Full(frag.received) {
        frag := frag.(defined := false);
        out := frag.room[..frag.len];
      } else {
        out := [];
      }
      incoming.fragments[slot] := frag;
    }
  }
}
