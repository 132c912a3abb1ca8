/** Fetching and validating EDID records (drm_edid.c): block by block over a wire that may fail, into
    one buffer. */
module Edid {
  import opened Lists

  type Byte = b: nat | b < 256

  const LENGTH := 128
  /** Places in the base block: the major version, the number of extensions, the checksum. */
  const VERSION := 18
  const EXTENSIONS := 0x7e
  const CHECKSUM := 127

  type Block = s: seq<Byte> | |s| == LENGTH witness seq(LENGTH, _ => 0)

  const HEADER: seq<Byte> := [0x00, 0xff, 0xff, 0xff, 0xff, 0xff, 0xff, 0x00]

  // ---------------------------------------------------------------- one block

  /** drm_edid_header_is_valid: how many of the first n header bytes are right */
  function ScoreUpTo(raw: seq<Byte>, n: nat): (s: nat)
    requires n <= 8 <= |raw|
    ensures s <= n
  {
    if n == 0 then 0 else ScoreUpTo(raw, n - 1) + if raw[n - 1] == HEADER[n - 1] then 1 else 0
  }

  function Score(raw: Block): nat {
    ScoreUpTo(raw, 8)
  }

  function Sum(raw: seq<Byte>): nat {
    if raw == [] then 0 else Sum(raw[..|raw| - 1]) + raw[|raw| - 1]
  }

  /** The module parameter, as drm_edid_block_valid corrects it. */
  function Threshold(fixup: int): nat {
    if fixup > 8 || fixup < 0 then 6 else fixup
  }

  /** A base block with a nearly right header gets the right one. */
  function Fixed(raw: Block, base: bool, fixup: int): Block {
    if base && Score(raw) != 8 && Score(raw) >= Threshold(fixup) then HEADER + raw[8..] else raw
  }

  /** What drm_edid_block_valid accepts. */
  predicate Good(raw: Block, base: bool, fixup: int) {
    && (base ==> Score(raw) == 8 || Score(raw) >= Threshold(fixup))
    && var r := Fixed(raw, base, fixup);
       && (Sum(r) % 256 == 0 || r[0] == 0x02)
       && (r[0] == 0 ==> r[VERSION] == 1)
  }

  lemma FullScore(raw: Block)
    ensures Score(raw) == 8 <==> raw[..8] == HEADER
  {
    hide Sum;
    assert ScoreUpTo(raw, 0) == 0;
    assert ScoreUpTo(raw, 1) <= 1 && ScoreUpTo(raw, 2) <= 2 && ScoreUpTo(raw, 3) <= 3 && ScoreUpTo(raw, 4) <= 4;
    assert ScoreUpTo(raw, 5) <= 5 && ScoreUpTo(raw, 6) <= 6 && ScoreUpTo(raw, 7) <= 7;
    if raw[..8] == HEADER {
      assert forall k :: 0 <= k < 8 ==> raw[k] == raw[..8][k];
    }
  }

  /** An accepted block stays accepted, and its header is not touched again.  A base block is of major
      version 1 and sums to 0; so does an extension, unless it is a CEA one, whose tag is 2. */
  lemma GoodStays(raw: Block, base: bool, fixup: int)
    requires Good(raw, base, fixup)
    ensures var r := Fixed(raw, base, fixup);
            && Good(r, base, fixup) && Fixed(r, base, fixup) == r
            && (base ==> r[..8] == HEADER && Sum(r) % 256 == 0 && r[18] == 1)
            && (base ==> Score(raw) == 8 || Score(raw) >= if 0 <= fixup <= 8 then fixup else 6)
            && (!base ==> r == raw && (raw[0] != 2 ==> Sum(raw) % 256 == 0) && (raw[0] == 0 ==> raw[18] == 1))
  {
    hide Score, Sum;
    FullScore(raw);
    var r := Fixed(raw, base, fixup);
    FullScore(r);
    assert base ==> r[..8] == HEADER;
    assert base ==> r[0] == r[..8][0];
  }

  // ---------------------------------------------------------------- what the wire delivers

  /** What a transfer leaves in the buffer, and whether it succeeded. */
  datatype Reply = Reply(ok: bool, data: Block)

  /** The reply to attempt `i` at reading block `j`. */
  type Wire = (nat, nat) -> Reply

  datatype Outcome = ReadError | Invalid | Valid(data: Block)

  predicate AllZero(raw: Block) {
    forall k :: 0 <= k < LENGTH ==> raw[k] == 0
  }

  /** Up to four attempts at block j, from attempt i on.  A blank base block is not asked for again. */
  function Fetch(wire: Wire, j: nat, i: nat, fixup: int): (o: Outcome)
    requires i <= 4
    decreases 4 - i
  {
    if i == 4 then Invalid
    else
      var raw := wire(j, i).data;
      if !wire(j, i).ok then ReadError
      else if Good(raw, j == 0, fixup) then Valid(Fixed(raw, j == 0, fixup))
      else if j == 0 && i == 0 && AllZero(Fixed(raw, true, fixup)) then Invalid
      else Fetch(wire, j, i + 1, fixup)
  }

  /** Attempt i is made: every earlier transfer succeeded and brought no good block, and the first one no
      blank base block. */
  ghost predicate Tried(wire: Wire, j: nat, i: nat, fixup: int) {
    forall k: nat :: k < i ==>
      && wire(j, k).ok && !Good(wire(j, k).data, j == 0, fixup)
      && (j == 0 && k == 0 ==> !AllZero(Fixed(wire(j, k).data, true, fixup)))
  }

  lemma {:induction false} FetchFrom(wire: Wire, j: nat, i: nat, fixup: int)
    requires i <= 4 && Tried(wire, j, i, fixup)
    ensures Fetch(wire, j, 0, fixup) == Fetch(wire, j, i, fixup)
  {
    hide Good, Fixed, AllZero;
    if i > 0 {
      FetchFrom(wire, j, i - 1, fixup);
      assert wire(j, i - 1).ok;
    }
  }

  lemma {:induction false} FetchEnds(wire: Wire, j: nat, i: nat, fixup: int) returns (k: nat)
    requires i <= 4 && Tried(wire, j, i, fixup) && !Fetch(wire, j, i, fixup).Invalid?
    ensures k < 4 && Tried(wire, j, k, fixup)
    ensures Fetch(wire, j, i, fixup) == Fetch(wire, j, k, fixup)
    ensures wire(j, k).ok ==> Good(wire(j, k).data, j == 0, fixup)
    decreases 4 - i
  {
    hide Good, Fixed, AllZero;
    if !wire(j, i).ok || Good(wire(j, i).data, j == 0, fixup) {
      k := i;
    } else {
      k := FetchEnds(wire, j, i + 1, fixup);
    }
  }

  /** A block is fetched exactly if one of the attempts that are made, four at most, brings a good one; a
      transfer fails exactly if one of them does. */
  lemma FetchExact(wire: Wire, j: nat, fixup: int)
    ensures forall i: nat :: i < 4 && Tried(wire, j, i, fixup) && wire(j, i).ok
                             && Good(wire(j, i).data, j == 0, fixup) ==>
              Fetch(wire, j, 0, fixup) == Valid(Fixed(wire(j, i).data, j == 0, fixup))
    ensures forall i: nat :: i < 4 && Tried(wire, j, i, fixup) && !wire(j, i).ok ==>
              Fetch(wire, j, 0, fixup) == ReadError
    ensures Fetch(wire, j, 0, fixup).Valid? ==>
              exists i: nat :: i < 4 && Tried(wire, j, i, fixup) && wire(j, i).ok
                               && Good(wire(j, i).data, j == 0, fixup)
    ensures Fetch(wire, j, 0, fixup).ReadError? ==>
              exists i: nat :: i < 4 && Tried(wire, j, i, fixup) && !wire(j, i).ok
  {
    hide Good, Fixed, AllZero, Tried;
    forall i: nat | i < 4 && Tried(wire, j, i, fixup) && (wire(j, i).ok ==> Good(wire(j, i).data, j == 0, fixup))
      ensures Fetch(wire, j, 0, fixup)
              == if wire(j, i).ok then Valid(Fixed(wire(j, i).data, j == 0, fixup)) else ReadError
    {
      FetchFrom(wire, j, i, fixup);
    }
    if !Fetch(wire, j, 0, fixup).Invalid? {
      NothingTried(wire, j, fixup);
      var k := FetchEnds(wire, j, 0, fixup);
    }
  }

  lemma NothingTried(wire: Wire, j: nat, fixup: int)
    ensures Tried(wire, j, 0, fixup)
  {
  }

  /** The extensions worth keeping among blocks j..n, or None if a transfer fails. */
  function Keep(wire: Wire, j: nat, n: nat, fixup: int): Option<seq<Block>>
    requires j <= n + 1
    decreases n + 1 - j
  {
    if j == n + 1 then Some([])
    else match Fetch(wire, j, 0, fixup)
      case ReadError => None
      case Invalid => Keep(wire, j + 1, n, fixup)
      case Valid(data) =>
        match Keep(wire, j + 1, n, fixup)
        case None => None
        case Some(rest) => Some([data] + rest)
  }

  lemma {:induction false} FetchedIsGood(wire: Wire, j: nat, i: nat, fixup: int)
    requires i <= 4 && Fetch(wire, j, i, fixup).Valid?
    ensures var b := Fetch(wire, j, i, fixup).data; Good(b, j == 0, fixup) && Fixed(b, j == 0, fixup) == b
    ensures j == 0 ==> var b := Fetch(wire, j, i, fixup).data; b[..8] == HEADER && Sum(b) % 256 == 0
    decreases 4 - i
  {
    hide Good, Fixed, AllZero;
    var raw := wire(j, i).data;
    if Good(raw, j == 0, fixup) {
      GoodStays(raw, j == 0, fixup);
    } else {
      FetchedIsGood(wire, j, i + 1, fixup);
    }
  }

  lemma {:induction false} KeptAreGood(wire: Wire, j: nat, n: nat, fixup: int)
    requires 1 <= j <= n + 1 && Keep(wire, j, n, fixup).Some?
    ensures var kept := Keep(wire, j, n, fixup).value;
            |kept| <= n + 1 - j && forall k :: 0 <= k < |kept| ==> Good(kept[k], false, fixup)
    decreases n + 1 - j
  {
    hide Good, Fixed, Fetch;
    if j <= n {
      KeptAreGood(wire, j + 1, n, fixup);
      if Fetch(wire, j, 0, fixup).Valid? {
        FetchedIsGood(wire, j, 0, fixup);
      }
    }
  }

  // ---------------------------------------------------------------- the record

  function Slot(raw: seq<Byte>, k: nat): Block
    requires LENGTH * (k + 1) <= |raw|
  {
    raw[LENGTH * k..LENGTH * (k + 1)]
  }

  /** drm_edid_is_valid, on a record of as many blocks as its base block announces. */
  ghost predicate IsValid(raw: seq<Byte>, fixup: int) {
    && |raw| >= LENGTH
    && var n: nat := raw[EXTENSIONS];
       LENGTH * (n + 1) == |raw| && forall k: nat :: k <= n ==> Good(Slot(raw, k), k == 0, fixup)
  }

  function LowByte(x: nat): Byte {
    x % 256
  }

  /** The base block announces n extensions fewer or as many; its checksum makes up for it. */
  function Patched(base: Block, n: nat): Block
    requires n <= base[EXTENSIONS]
  {
    base[CHECKSUM := LowByte(base[CHECKSUM] + base[EXTENSIONS] - n)][EXTENSIONS := n]
  }

  lemma {:induction false} SumUpdate(raw: seq<Byte>, k: nat, b: Byte)
    requires k < |raw|
    ensures Sum(raw[k := b]) == Sum(raw) - raw[k] + b
    decreases |raw|
  {
    var last := |raw| - 1;
    if k == last {
      assert raw[k := b][..last] == raw[..last];
    } else {
      assert raw[k := b][..last] == raw[..last][k := b];
      SumUpdate(raw[..last], k, b);
    }
  }

  lemma PatchedIsGood(base: Block, n: nat, fixup: int)
    requires Good(base, true, fixup) && base[..8] == HEADER && Sum(base) % 256 == 0 && n <= base[EXTENSIONS]
    ensures Good(Patched(base, n), true, fixup) && Sum(Patched(base, n)) % 256 == 0
    ensures Patched(base, n)[EXTENSIONS] == n
  {
    hide Sum, ScoreUpTo;
    var sum := LowByte(base[CHECKSUM] + base[EXTENSIONS] - n);
    SumUpdate(base, CHECKSUM, sum);
    SumUpdate(base[CHECKSUM := sum], EXTENSIONS, n);
    FullScore(base);
    FullScore(Patched(base, n));
    assert Patched(base, n)[..8] == base[..8];
    assert base[0] == base[..8][0] == 0;
  }

  // ---------------------------------------------------------------- the buffer

  /** drm_edid_block_valid on slot k, with its header repair in place. */
  method BlockValid(buf: array<Byte>, k: nat, base: bool, fixup: int) returns (ok: bool)
    requires LENGTH * (k + 1) <= buf.Length
    modifies buf
    ensures Slot(buf[..], k) == Fixed(old(Slot(buf[..], k)), base, fixup)
    ensures ok == Good(old(Slot(buf[..], k)), base, fixup)
    ensures forall m :: 0 <= m < buf.Length && !(LENGTH * k <= m < LENGTH * (k + 1)) ==> buf[m] == old(buf[m])
  {
    hide Sum, ScoreUpTo;
    var off := LENGTH * k;
    ghost var raw := Slot(buf[..], k);
    var threshold := Threshold(fixup);
    if base {
      var score := HeaderScore(buf, off);
      if score == 8 {
      } else if score >= threshold {
        forall m | 0 <= m < 8 {
          buf[off + m] := HEADER[m];
        }
        assert Slot(buf[..], k) == HEADER + raw[8..];
      } else {
        return false;
      }
    }
    ghost var r := Slot(buf[..], k);
    assert r == Fixed(raw, base, fixup);
    var sum := Checksum(buf, off);
    assert r[0] == buf[off] && r[VERSION] == buf[off + VERSION];
    if sum != 0 && buf[off] != 0x02 {
      return false;
    }
    if buf[off] == 0 && buf[off + VERSION] != 1 {
      return false;
    }
    return true;
  }

  method HeaderScore(buf: array<Byte>, off: nat) returns (score: nat)
    requires off + LENGTH <= buf.Length
    ensures score == Score(buf[off..off + LENGTH])
  {
    score := 0;
    ghost var raw := buf[off..off + LENGTH];
    for i := 0 to 8
      invariant score == ScoreUpTo(raw, i)
    {
      if buf[off + i] == HEADER[i] {
        score := score + 1;
      }
    }
  }

  /** The 8-bit sum of a block. */
  method Checksum(buf: array<Byte>, off: nat) returns (sum: Byte)
    requires off + LENGTH <= buf.Length
    ensures sum == Sum(buf[off..off + LENGTH]) % 256
  {
    sum := 0;
    ghost var raw := buf[off..off + LENGTH];
    assert raw[..0] == [];
    for i := 0 to LENGTH
      invariant sum == Sum(raw[..i]) % 256
    {
      assert raw[..i + 1][..i] == raw[..i];
      SumStep(raw[..i + 1], sum);
      sum := LowByte(sum + buf[off + i]);
    }
    assert raw[..LENGTH] == raw;
  }

  lemma SumStep(raw: seq<Byte>, sum: Byte)
    requires raw != [] && sum == Sum(raw[..|raw| - 1]) % 256
    ensures (sum + raw[|raw| - 1]) % 256 == Sum(raw) % 256
  {
  }

  /** One read into slot k. */
  method Probe(wire: Wire, buf: array<Byte>, k: nat, j: nat, i: nat) returns (ok: bool)
    requires LENGTH * (k + 1) <= buf.Length
    modifies buf
    ensures ok == wire(j, i).ok && Slot(buf[..], k) == wire(j, i).data
    ensures forall m :: 0 <= m < buf.Length && !(LENGTH * k <= m < LENGTH * (k + 1)) ==> buf[m] == old(buf[m])
  {
    var off := LENGTH * k;
    var raw := wire(j, i).data;
    forall m | 0 <= m < LENGTH {
      buf[off + m] := raw[m];
    }
    return wire(j, i).ok;
  }

  /** The inner loop of drm_do_get_edid: block j into slot k. */
  method FetchInto(wire: Wire, buf: array<Byte>, k: nat, j: nat, fixup: int) returns (o: Outcome)
    requires LENGTH * (k + 1) <= buf.Length
    modifies buf
    ensures o == Fetch(wire, j, 0, fixup)
    ensures o.Valid? ==> Slot(buf[..], k) == o.data
    ensures forall m :: 0 <= m < buf.Length && !(LENGTH * k <= m < LENGTH * (k + 1)) ==> buf[m] == old(buf[m])
  {
    hide Good, Fixed, Slot;
    var i := 0;
    while i < 4
      invariant i <= 4 && Fetch(wire, j, i, fixup) == Fetch(wire, j, 0, fixup)
      invariant forall m :: 0 <= m < buf.Length && !(LENGTH * k <= m < LENGTH * (k + 1)) ==> buf[m] == old(buf[m])
    {
      var read := Probe(wire, buf, k, j, i);
      if !read {
        return ReadError;
      }
      var ok := BlockValid(buf, k, j == 0, fixup);
      if ok {
        return Valid(Slot(buf[..], k));
      }
      if j == 0 && i == 0 {
        if AllZero(Slot(buf[..], k)) {
          return Invalid;
        }
      }
      i := i + 1;
    }
    return Invalid;
  }

  // ---------------------------------------------------------------- the whole fetch

  /** The base block, followed by the kept extensions in order. */
  ghost predicate RecordOf(raw: seq<Byte>, base: Block, kept: seq<Block>) {
    && |raw| == LENGTH * (|kept| + 1)
    && Slot(raw, 0) == base
    && forall k :: 0 <= k < |kept| ==> Slot(raw, k + 1) == kept[k]
  }

  /** What drm_do_get_edid is to return; None also stands for running out of memory. */
  ghost predicate Fetched(wire: Wire, fixup: int, raw: seq<Byte>) {
    var o := Fetch(wire, 0, 0, fixup);
    && o.Valid?
    && var n: nat := o.data[EXTENSIONS];
       var kept := Keep(wire, 1, n, fixup);
       kept.Some? && |kept.value| <= n && RecordOf(raw, Patched(o.data, |kept.value|), kept.value)
  }

  /** Nothing on the wire stands in the way. */
  predicate Readable(wire: Wire, fixup: int) {
    var o := Fetch(wire, 0, 0, fixup);
    o.Valid? && Keep(wire, 1, o.data[EXTENSIONS], fixup).Some?
  }

  /** Whatever the wire delivers, a fetched record is valid as a whole, its base block sums to 0, and it
      announces as many extensions as follow. */
  lemma FetchedIsValid(wire: Wire, fixup: int, raw: seq<Byte>)
    requires Fetched(wire, fixup, raw)
    ensures IsValid(raw, fixup) && Sum(Slot(raw, 0)) % 256 == 0
  {
    hide Good, Sum, Slot, Patched;
    var base := Fetch(wire, 0, 0, fixup).data;
    var n: nat := base[EXTENSIONS];
    var kept := Keep(wire, 1, n, fixup).value;
    FetchedIsGood(wire, 0, 0, fixup);
    KeptAreGood(wire, 1, n, fixup);
    GoodBase(base, fixup);
    PatchedIsGood(base, |kept|, fixup);
    SlotAt(raw, 0, EXTENSIONS);
    forall k: nat | k <= |kept|
      ensures Good(Slot(raw, k), k == 0, fixup)
    {
      if k > 0 {
        assert Slot(raw, k - 1 + 1) == kept[k - 1];
      }
    }
  }

  lemma GoodBase(base: Block, fixup: int)
    requires Good(base, true, fixup)
    ensures Good(base, 0 == 0, fixup)
  {
  }

  lemma SlotAt(raw: seq<Byte>, k: nat, m: nat)
    requires LENGTH * (k + 1) <= |raw| && m < LENGTH
    ensures Slot(raw, k)[m] == raw[LENGTH * k + m]
  {
  }

  /** krealloc: a new buffer with as much of the old contents as fits, or none. */
  method Realloc(buf: array<Byte>, blocks: nat, memory: bool) returns (r: array?<Byte>)
    ensures memory ==> r != null
    ensures r != null ==> fresh(r) && r.Length == LENGTH * blocks
    ensures r != null ==> forall m :: 0 <= m < r.Length && m < buf.Length ==> r[m] == buf[m]
  {
    if !memory {
      var failed: bool := *;
      if failed {
        return null;
      }
    }
    r := new Byte[LENGTH * blocks](_ => 0);
    forall m | 0 <= m < r.Length && m < buf.Length {
      r[m] := buf[m];
    }
  }

  function Joined(good: seq<Block>, rest: Option<seq<Block>>): Option<seq<Block>> {
    match rest
    case None => None
    case Some(more) => Some(good + more)
  }

  lemma KeepStarts(k: Option<seq<Block>>)
    ensures Joined([], k) == k
  {
    assert k.Some? ==> [] + k.value == k.value;
  }

  lemma KeepStep(wire: Wire, j: nat, n: nat, fixup: int, good: seq<Block>)
    requires 1 <= j <= n
    ensures Joined(good, Keep(wire, j, n, fixup)) ==
              match Fetch(wire, j, 0, fixup)
              case ReadError => None
              case Invalid => Joined(good, Keep(wire, j + 1, n, fixup))
              case Valid(data) => Joined(good + [data], Keep(wire, j + 1, n, fixup))
  {
    hide Fetch;
    var rest := Keep(wire, j + 1, n, fixup);
    if rest.Some? && Fetch(wire, j, 0, fixup).Valid? {
      var data := Fetch(wire, j, 0, fixup).data;
      assert good + ([data] + rest.value) == (good + [data]) + rest.value;
    }
  }

  lemma KeepEnds(wire: Wire, n: nat, fixup: int, good: seq<Block>)
    ensures Joined(good, Keep(wire, n + 1, n, fixup)) == Some(good)
  {
    assert good + [] == good;
  }

  /** The outer loop: the good extensions close ranks behind the base block. */
  method FetchExtensions(wire: Wire, buf: array<Byte>, n: nat, fixup: int) returns (kept: Option<nat>)
    requires buf.Length == LENGTH * (n + 1)
    modifies buf
    ensures kept == None <==> Keep(wire, 1, n, fixup) == None
    ensures kept.Some? ==> var k := Keep(wire, 1, n, fixup).value;
                           |k| == kept.value <= n && forall m :: 0 <= m < |k| ==> Slot(buf[..], m + 1) == k[m]
    ensures Slot(buf[..], 0) == old(Slot(buf[..], 0))
  {
    hide Slot, Fetch, Keep, Joined;
    ghost var good: seq<Block> := [];
    var valid := 0;
    var j := 1;
    KeepStarts(Keep(wire, 1, n, fixup));
    while j <= n
      invariant 1 <= j <= n + 1 && valid == |good| <= j - 1
      invariant Slot(buf[..], 0) == old(Slot(buf[..], 0))
      invariant forall m :: 0 <= m < valid ==> Slot(buf[..], m + 1) == good[m]
      invariant Keep(wire, 1, n, fixup) == Joined(good, Keep(wire, j, n, fixup))
    {
      ghost var before := buf[..];
      KeepStep(wire, j, n, fixup, good);
      var o := FetchInto(wire, buf, valid + 1, j, fixup);
      forall m | 0 <= m < valid + 1
        ensures Slot(buf[..], m) == Slot(before, m)
      {
        SlotsKept(before, buf[..], m, valid + 1);
      }
      assert Slot(buf[..], 0) == Slot(before, 0);
      match o {
        case ReadError => return None;
        case Invalid =>
        case Valid(data) =>
          good := good + [data];
          valid := valid + 1;
      }
      j := j + 1;
    }
    KeepEnds(wire, n, fixup, good);
    return Some(valid);
  }

  lemma SlotsKept(a: seq<Byte>, b: seq<Byte>, k: nat, changed: nat)
    requires |a| == |b| && LENGTH * (k + 1) <= |a| && k != changed
    requires forall m :: 0 <= m < |a| && !(LENGTH * changed <= m < LENGTH * (changed + 1)) ==> a[m] == b[m]
    ensures Slot(a, k) == Slot(b, k)
  {
  }

  /** Count and checksum of the base block are put right in place. */
  method Patch(buf: array<Byte>, n: nat)
    requires buf.Length >= LENGTH && n <= buf[EXTENSIONS]
    modifies buf
    ensures Slot(buf[..], 0) == Patched(old(Slot(buf[..], 0)), n)
    ensures forall m :: LENGTH <= m < buf.Length ==> buf[m] == old(buf[m])
  {
    ghost var base := Slot(buf[..], 0);
    assert base[EXTENSIONS] == buf[EXTENSIONS] && base[CHECKSUM] == buf[CHECKSUM];
    buf[CHECKSUM] := LowByte(buf[CHECKSUM] + buf[EXTENSIONS] - n);
    buf[EXTENSIONS] := n;
    assert Slot(buf[..], 0) == Patched(base, n);
  }

  lemma PatchedSame(base: Block)
    ensures Patched(base, base[EXTENSIONS]) == base
  {
  }

  /** drm_do_get_edid: with memory it succeeds exactly when the wire delivers a good base block and no
      transfer fails; what it returns is one valid record. */
  method GetEdid(wire: Wire, fixup: int, memory: bool) returns (r: array?<Byte>)
    ensures r != null ==> fresh(r) && Fetched(wire, fixup, r[..])
    ensures r != null ==> IsValid(r[..], fixup) && Sum(Slot(r[..], 0)) % 256 == 0
    ensures memory ==> (r != null <==> Readable(wire, fixup))
  {
    hide Good, Sum, Keep, Fetch, Slot, Patched, IsValid;
    if !memory {
      var failed: bool := *;
      if failed {
        return null;
      }
    }
    var block := new Byte[LENGTH](_ => 0);
    var o := FetchInto(wire, block, 0, 0, fixup);
    if !o.Valid? {
      return null;
    }
    SlotAt(block[..], 0, EXTENSIONS);
    var n: nat := block[EXTENSIONS];
    if n == 0 {
      NoExtensions(wire, fixup, block[..], o.data);
      FetchedIsValid(wire, fixup, block[..]);
      return block;
    }
    var bigger := Realloc(block, n + 1, memory);
    if bigger == null {
      return null;
    }
    SlotsCopied(block[..], bigger[..], 0);
    var kept := FetchExtensions(wire, bigger, n, fixup);
    if kept.None? {
      return null;
    }
    r := Finish(wire, fixup, bigger, o.data, kept.value, memory);
  }

  lemma NoExtensions(wire: Wire, fixup: int, raw: seq<Byte>, base: Block)
    requires Fetch(wire, 0, 0, fixup) == Valid(base) && base[EXTENSIONS] == 0 && |raw| == LENGTH && Slot(raw, 0) == base
    ensures Fetched(wire, fixup, raw) && Readable(wire, fixup)
  {
    hide Fetch, Slot;
    assert Keep(wire, 1, 0, fixup) == Some([]);
    PatchedSame(base);
  }

  lemma SlotsCopied(a: seq<Byte>, b: seq<Byte>, k: nat)
    requires LENGTH * (k + 1) <= |a| && LENGTH * (k + 1) <= |b|
    requires forall m :: 0 <= m < |a| && m < |b| ==> a[m] == b[m]
    ensures Slot(a, k) == Slot(b, k)
  {
  }

  /** The buffer as the outer loop leaves it. */
  ghost predicate InBuffer(raw: seq<Byte>, base: Block, kept: Option<seq<Block>>, n: nat) {
    var announced: nat := base[EXTENSIONS];
    && |raw| == LENGTH * (announced + 1) && Slot(raw, 0) == base
    && kept.Some? && |kept.value| == n <= announced
    && forall m :: 0 <= m < n ==> Slot(raw, m + 1) == kept.value[m]
  }

  /** Dropped extensions are paid for in the base block, and the buffer shrinks to what was kept. */
  method Finish(wire: Wire, fixup: int, buf: array<Byte>, base: Block, kept: nat, memory: bool)
    returns (r: array?<Byte>)
    requires Fetch(wire, 0, 0, fixup) == Valid(base)
    requires InBuffer(buf[..], base, Keep(wire, 1, base[EXTENSIONS], fixup), kept)
    modifies buf
    ensures memory ==> r != null
    ensures r != null ==>
              (r == buf || fresh(r)) && Fetched(wire, fixup, r[..]) && IsValid(r[..], fixup)
              && Sum(Slot(r[..], 0)) % 256 == 0
  {
    hide Good, Sum, Keep, Fetch, Slot, Patched, IsValid;
    ghost var k := Keep(wire, 1, base[EXTENSIONS], fixup).value;
    SlotAt(buf[..], 0, EXTENSIONS);
    PatchedSame(base);
    r := buf;
    if kept != buf[EXTENSIONS] {
      ghost var before := buf[..];
      Patch(buf, kept);
      r := Realloc(buf, kept + 1, memory);
      if r == null {
        return;
      }
      forall m | 0 <= m < kept
        ensures Slot(r[..], m + 1) == k[m]
      {
        SlotsKept(before, buf[..], m + 1, 0);
        SlotsCopied(buf[..], r[..], m + 1);
      }
      SlotsCopied(buf[..], r[..], 0);
    }
    assert RecordOf(r[..], Patched(base, kept), k);
    FetchedIsValid(wire, fixup, r[..]);
  }
}
