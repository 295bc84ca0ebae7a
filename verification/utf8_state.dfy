/** The two representations of a partial UTF-8 character between calls of mbrtoc32. */
module Utf8State {
  import opened Utf8
  import opened Utf8Restart

  /** Only the first four of the bytes pending and new are copied to `buf`. */
  lemma DecideView(q: seq<bv8>, p: seq<bv8>)
    requires q != [] && p == (if |q| > 4 then q[..4] else q)
    ensures Decide(p) == Decide(q) && (Decide(q).Incomplete? ==> p == q && |q| < 4)
  {
    if |q| >= 4 { DecideFour(q); assert q[..4][..4] == q[..4]; DecideFour(q[..4]); }
    if |q| == 4 { assert q[..4] == q; }
  }

  /** A completed character is longer than what was pending of it, so the difference is at
      least one; the calls of abort are never reached. */
  lemma NoAbort(pending: seq<bv8>, s: seq<bv8>)
    requires PendingOk(pending) && s != []
    ensures Decide(pending + s).Complete? ==> |pending| < Length(Decide(pending + s).res)
    ensures |pending| < 4
  {
    if pending != [] {
      if |pending| >= 4 { DecideFour(pending); }
      if Decide(pending + s).Complete? { DecideGrows(pending, s); }
    }
  }

  /** The pending bytes and up to three new ones, at most four together, as a caller of the
      decision tree sees them. */
  method Gather(buf: array<bv8>, nstate: nat, s: seq<bv8>) returns (m: nat)
    requires buf.Length == 4 && 1 <= nstate <= 3 && s != []
    modifies buf
    ensures m <= 4 && buf[..m] == var q := old(buf[..nstate]) + s; if |q| > 4 then q[..4] else q
  {
    ghost var pending := buf[..nstate];
    m := nstate;
    buf[m] := s[0];
    m := m + 1;
    if |s| >= 2 && m < 4 {
      buf[m] := s[1];
      m := m + 1;
      if |s| >= 3 && m < 4 {
        buf[m] := s[2];
        m := m + 1;
      }
    }
    assert buf[..m] == pending + s[..m - nstate];
  }

  // ----- Raw bytes (mbrtowc-impl.h, and mbrtoc32.c for systems with a small wchar_t) -----

  class ByteState {
    var nstate: nat              // pstate[0]
    const pstate: array<bv8>     // of which pstate[1..3] hold the bytes

    constructor ()
      ensures Valid() && Pending() == [] && fresh(pstate)
    {
      nstate := 0;
      pstate := new bv8[4];
    }

    ghost function Pending(): seq<bv8>
      reads this, pstate
    {
      if nstate + 1 <= pstate.Length then pstate[1..nstate + 1] else []
    }

    ghost predicate Valid()
      reads this, pstate
    {
      pstate.Length == 4 && nstate <= 3 && PendingOk(Pending())
    }

    /** The bytes to look at: those of `s`, or in `buf` the pending ones and those of `s`. */
    method Window(s: seq<bv8>) returns (p: seq<bv8>)
      requires Valid() && s != []
      ensures var q := Pending() + s; p != [] && Decide(p) == Decide(q) && (Decide(q).Incomplete? ==> p == q && |q| < 4)
    {
      hide Decide;
      ghost var pending := Pending();
      p := s;
      if nstate != 0 {
        var buf := new bv8[4];
        if nstate == 3 { buf[2] := pstate[3]; }
        if nstate >= 2 { buf[1] := pstate[2]; }
        buf[0] := pstate[1];
        assert buf[..nstate] == pending;
        var m := Gather(buf, nstate, s);
        p := buf[..m];
        DecideView(pending + s, p);
      } else {
        assert pending + s == s;
        if Decide(p).Incomplete? { DecideShort(p); }
      }
    }

    /** The body of mbrtoc32 from the switch on. */
    method Mbrtoc32(s: seq<bv8>) returns (r: Ret)
      requires Valid()
      modifies this, pstate
      ensures Valid()
      ensures s == [] ==> r == Partial && Pending() == old(Pending())
      ensures s != [] ==> r == Outcome(old(Pending()), s) && Pending() == After(old(Pending()), s)
      ensures r == Illegal ==> Pending() == old(Pending())
      ensures r != Aborted && r != BadState
    {
      hide Decide;
      if s == [] { return Partial; }
      ghost var pending := Pending();
      NoAbort(pending, s);
      var p := Window(s);
      match Decide(p)
      case Complete(wc, res) =>
        r := if nstate >= (if res > 0 then res else 1) then Aborted else Got(res - nstate, wc);
        nstate := 0;
      case Incomplete =>
        DecideShort(p);
        var k := Remember(pstate, nstate, s, |p|);
        r := if k != |p| then Aborted else Partial;
        nstate := |p|;
        assert Pending() == pending + s;
      case Invalid =>
        r := Illegal;
    }
  }

  lemma DecideShort(p: seq<bv8>)
    requires p != [] && Decide(p).Incomplete?
    ensures |p| < 4
  {
    if |p| >= 4 { DecideFour(p); }
  }

  /** The code after the label `incomplete`. */
  method Remember(pstate: array<bv8>, nstate: nat, s: seq<bv8>, m: nat) returns (k: nat)
    requires pstate.Length == 4 && m < 4 && |s| == m - nstate > 0
    modifies pstate
    ensures k == m && pstate[1..m + 1] == old(pstate[1..nstate + 1]) + s
  {
    ghost var pending := pstate[1..nstate + 1];
    k := nstate + 1;
    pstate[k] := s[0];
    if k < m {
      k := k + 1;
      pstate[k] := s[1];
      if k < m {
        k := k + 1;
        pstate[k] := s[2];
      }
    }
    assert pstate[1..m + 1] == pending + s;
  }

  // ----- Packed (mbrtoc32.c for glibc) -----

  /** A number of bytes as bits 2..0 of __count hold it, and back. */
  function Small(x: bv32): nat { if x == 0 then 0 else if x == 1 then 1 else if x == 2 then 2 else if x == 3 then 3 else 4 }

  function Bits(n: nat): bv32 { if n == 0 then 0 else if n == 1 then 1 else if n == 2 then 2 else if n == 3 then 3 else 4 }

  /** __count and __wch after the label `incomplete`. */
  function PackCount(p: seq<bv8>): bv32
    requires p != []
  {
    (if p[0] < 0xe0 then 2 << 8 else if p[0] < 0xf0 then 3 << 8 else 4 << 8) | Bits(|p|)
  }

  function PackWch(p: seq<bv8>): bv32
    requires p != []
  {
    if p[0] < 0xe0 then (p[0] & 0x1f) as bv32 << 6
    else if p[0] < 0xf0 then
      ((p[0] & 0x0f) as bv32 << 12) | (if |p| > 1 then (p[1] & 0x3f) as bv32 << 6 else 0)
    else
      ((p[0] & 0x07) as bv32 << 18) | (if |p| > 1 then (p[1] & 0x3f) as bv32 << 12 else 0)
        | (if |p| > 2 then (p[2] & 0x3f) as bv32 << 6 else 0)
  }

  /** The bytes as they are recovered from the two words, `t` being the total expected. */
  function Unpacked0(t: bv32, wch: bv32): bv8
    requires 2 <= t <= 4
  {
    Byte((0x100 - (0x100 >> t)) | (wch >> ((t - 1) * 6)))
  }

  function UnpackedAt(t: bv32, wch: bv32, i: bv32): bv8
    requires 1 <= i < t <= 4
  {
    Byte(0x80 | ((wch >> ((t - i - 1) * 6)) & 0x3f))
  }

  function Unpack(count: bv32, wch: bv32): seq<bv8> {
    var n, t := Small(count & 7), count >> 8;
    if n == 0 || !(2 <= t <= 4) || !(Bits(n) < t) then []
    else [Unpacked0(t, wch)] + (if n >= 2 then [UnpackedAt(t, wch, 1)] else []) + (if n >= 3 then [UnpackedAt(t, wch, 2)] else [])
  }

  lemma CountFields(n: bv32)
    requires n <= 4
    ensures ((2 << 8) | n) & 7 == n && ((2 << 8) | n) >> 8 == 2
    ensures ((3 << 8) | n) & 7 == n && ((3 << 8) | n) >> 8 == 3
    ensures ((4 << 8) | n) & 7 == n && ((4 << 8) | n) >> 8 == 4
  {
  }

  lemma LeadTwo(c: bv8)
    requires 0xc2 <= c < 0xe0
    ensures Unpacked0(2, (c & 0x1f) as bv32 << 6) == c
  {
  }

  lemma LeadThree(c: bv8, b: bv8)
    requires 0xe0 <= c < 0xf0 && IsTail(b)
    ensures Unpacked0(3, ((c & 0x0f) as bv32 << 12) | 0) == c
    ensures var w := ((c & 0x0f) as bv32 << 12) | ((b & 0x3f) as bv32 << 6); Unpacked0(3, w) == c && UnpackedAt(3, w, 1) == b
  {
  }

  lemma LeadFour(c: bv8, b: bv8, d: bv8)
    requires 0xf0 <= c <= 0xf4 && IsTail(b) && IsTail(d)
    ensures Unpacked0(4, ((c & 0x07) as bv32 << 18) | 0 | 0) == c
    ensures var w := ((c & 0x07) as bv32 << 18) | ((b & 0x3f) as bv32 << 12) | 0; Unpacked0(4, w) == c && UnpackedAt(4, w, 1) == b
    ensures var w := ((c & 0x07) as bv32 << 18) | ((b & 0x3f) as bv32 << 12) | ((d & 0x3f) as bv32 << 6);
      Unpacked0(4, w) == c && UnpackedAt(4, w, 1) == b && UnpackedAt(4, w, 2) == d
  {
  }

  /** What `incomplete` says about the bytes there are. */
  lemma IncompleteBytes(p: seq<bv8>)
    requires p != [] && Decide(p).Incomplete?
    ensures 0xc2 <= p[0] <= 0xf4 && |p| <= 3
    ensures p[0] < 0xe0 ==> |p| == 1
    ensures p[0] < 0xf0 ==> |p| <= 2
    ensures |p| > 1 ==> IsTail(p[1])
    ensures |p| > 2 ==> IsTail(p[2])
  {
    if |p| >= 4 { DecideFour(p); }
  }

  /** Nothing is lost by packing: the bytes come back as they were, and their number and the
      expected total pass the test of the code. */
  lemma UnpackPack(p: seq<bv8>)
    requires p != [] && Decide(p).Incomplete?
    ensures var count := PackCount(p);
      && count & 7 == Bits(|p|) && Small(count & 7) == |p| && 2 <= count >> 8 <= 4 && Bits(|p|) < count >> 8
      && Unpack(count, PackWch(p)) == p
  {
    IncompleteBytes(p);
    CountFields(Bits(|p|));
    if p[0] < 0xe0 {
      LeadTwo(p[0]);
    } else if p[0] < 0xf0 {
      LeadThree(p[0], if |p| > 1 then p[1] else 0x80);
    } else {
      LeadFour(p[0], if |p| > 1 then p[1] else 0x80, if |p| > 2 then p[2] else 0x80);
    }
    hide Unpacked0, UnpackedAt, Decide, IsTail;
  }

  class PackedState {
    var count: bv32   // __count
    var wch: bv32     // __value.__wch

    constructor ()
      ensures Valid() && Pending() == []
    {
      count, wch := 0, 0;
    }

    ghost function Pending(): seq<bv8>
      reads this
    {
      if count & 7 == 0 then [] else Unpack(count, wch)
    }

    ghost predicate Valid()
      reads this
    {
      && PendingOk(Pending())
      && (count & 7 != 0 ==> Pending() != [] && count == PackCount(Pending()) && wch == PackWch(Pending()))
    }

    /** The pending bytes, from the packed form. */
    method Unpacked(nstate: nat, t: bv32) returns (buf: array<bv8>)
      requires 1 <= nstate <= 3 && Bits(nstate) < t <= 4
      ensures fresh(buf) && buf.Length == 4 && buf[0] == Unpacked0(t, wch)
      ensures (nstate >= 2 ==> buf[1] == UnpackedAt(t, wch, 1)) && (nstate == 3 ==> buf[2] == UnpackedAt(t, wch, 2))
    {
      hide Unpacked0, UnpackedAt;
      buf := new bv8[4];
      buf[0] := Unpacked0(t, wch);
      if nstate >= 2 {
        buf[1] := UnpackedAt(t, wch, 1);
        if nstate >= 3 { buf[2] := UnpackedAt(t, wch, 2); }
      }
    }

    /** mbrtoc32 in a UTF-8 locale on glibc. */
    method Mbrtoc32(s: seq<bv8>) returns (r: Ret)
      requires Valid()
      modifies this
      ensures Valid()
      ensures s == [] ==> r == Partial && Pending() == old(Pending())
      ensures s != [] ==> r == Outcome(old(Pending()), s) && Pending() == After(old(Pending()), s)
      ensures r == Illegal ==> Pending() == old(Pending())
      ensures r != Aborted && r != BadState
    {
      hide Decide, PackCount, PackWch, Unpacked0, UnpackedAt;
      if s == [] { return Partial; }
      ghost var pending := Pending();
      NoAbort(pending, s);
      var nstate, p := Small(count & 7), s;
      if nstate != 0 {
        UnpackPack(pending);
        var t := count >> 8;
        if !(t > Bits(nstate) && t <= 4) { return BadState; }
        var buf := Unpacked(nstate, t);
        assert buf[..nstate] == pending;
        var m := Gather(buf, nstate, s);
        p := buf[..m];
        DecideView(pending + s, p);
      }
      assert pending == [] ==> pending + s == s;
      match Decide(p)
      case Complete(wc, res) =>
        r := if nstate >= (if res > 0 then res else 1) then Aborted else Got(res - nstate, wc);
        count := 0;
      case Incomplete =>
        r := Partial;
        UnpackPack(p);
        count, wch := PackCount(p), PackWch(p);
      case Invalid =>
        r := Illegal;
    }
  }
}
