/** The receive side of the CANopen driver: hardware filters in list mode, the
    software search used when there are too few of them, and their agreement. */
module CanReceive {
  import opened Wrappers

  /** Filter banks of the largest bxCAN peripheral. */
  const MAX_FILTERS := 28

  /** Identifier and remote transmission bit as one word. */
  function Word(sid: bv16, rtr: bool): bv16 {
    sid | if rtr then 0x0800 else 0
  }

  predicate MaskedEqual(x: bv16, y: bv16, mask: bv16) {
    (x ^ y) & mask == 0
  }

  /** A received frame: 11-bit identifier and remote transmission bit. */
  datatype Message = Message(sid: bv16, rtr: bool) {
    predicate Standard() {
      sid < 0x800
    }

    function Ident(): bv16 {
      Word(sid, rtr)
    }
  }

  /** A receive buffer; `callback` stands for the object and the function registered with it. */
  datatype RxBuffer = RxBuffer(ident: bv16, mask: bv16, callback: Option<nat>) {
    predicate Matches(m: Message) {
      MaskedEqual(m.Ident(), ident, mask)
    }

    predicate Exact() {
      AllBits(mask)
    }
  }

  /** One 16-bit filter entry, two of which make a filter register, and a bank of two registers. */
  datatype Entry = Entry(stid: bv16, rtr: bool)
  datatype Register = Register(low: Entry, high: Entry)
  datatype Bank = Bank(register1: Register, register2: Register)

  const UNUSED := Bank(Register(Entry(0, false), Entry(0, false)), Register(Entry(0, false), Entry(0, false)))

  /** Entry `r` of a bank, low half first. */
  function EntryIn(b: Bank, r: nat): Entry {
    var register := if r < 2 then b.register1 else b.register2;
    if r % 2 == 0 then register.low else register.high
  }

  /** The entry that the hardware numbers `k`: four to a bank. */
  function EntryAt(banks: seq<Bank>, k: nat): Entry
    requires k < 4 * |banks|
  {
    EntryIn(banks[k / 4], k % 4)
  }

  function SetHalf(r: Register, half: nat, e: Entry): Register {
    if half == 0 then r.(low := e) else r.(high := e)
  }

  function SetIn(b: Bank, r: nat, e: Entry): Bank {
    if r < 2 then b.(register1 := SetHalf(b.register1, r % 2, e)) else b.(register2 := SetHalf(b.register2, r % 2, e))
  }

  /** Writes the filter entry of receive buffer `index`. */
  function SetEntry(banks: seq<Bank>, index: nat, e: Entry): seq<Bank>
    requires index < 4 * |banks|
  {
    banks[index / 4 := SetIn(banks[index / 4], index % 4, e)]
  }

  lemma SetInAt(b: Bank, r: nat, e: Entry, q: nat)
    requires r < 4 && q < 4
    ensures EntryIn(SetIn(b, r, e), q) == if q == r then e else EntryIn(b, q)
  {
  }

  /** The place of a buffer in the filter banks is the entry with its own number,
      and no two buffers share one. */
  lemma SetEntryAt(banks: seq<Bank>, index: nat, e: Entry, k: nat)
    requires index < 4 * |banks| && k < 4 * |banks|
    ensures EntryAt(SetEntry(banks, index, e), k) == if k == index then e else EntryAt(banks, k)
  {
    if k / 4 == index / 4 {
      SetInAt(banks[index / 4], index % 4, e, k % 4);
    }
  }

  predicate Accepts(e: Entry, m: Message) {
    e.stid == m.sid && e.rtr == m.rtr
  }

  /** The filter match index: the lowest entry from `k` on that lists the frame. */
  function MatchIndex(banks: seq<Bank>, m: Message, k: nat): (r: Option<nat>)
    requires k <= 4 * |banks|
    ensures r.Some? ==> k <= r.value < 4 * |banks| && Accepts(EntryAt(banks, r.value), m)
    ensures forall j :: k <= j < (if r.Some? then r.value else 4 * |banks|) ==> !Accepts(EntryAt(banks, j), m)
    decreases 4 * |banks| - k
  {
    if k == 4 * |banks| then None
    else if Accepts(EntryAt(banks, k), m) then Some(k)
    else MatchIndex(banks, m, k + 1)
  }

  /** What the filter path calls; frames that no entry lists are not delivered. */
  function FilterDispatch(rx: seq<RxBuffer>, banks: seq<Bank>, m: Message): Option<nat> {
    var index := MatchIndex(banks, m, 0);
    if index.Some? && index.value < |rx| then rx[index.value].callback else None
  }

  /** The first of the buffers from `i` up to `n` that matches. */
  function FirstMatch(rx: seq<RxBuffer>, m: Message, i: nat, n: nat): (r: Option<nat>)
    requires i <= n <= |rx|
    ensures r.Some? ==> i <= r.value < n && rx[r.value].Matches(m)
    ensures forall j :: i <= j < (if r.Some? then r.value else n) ==> !rx[j].Matches(m)
    decreases n - i
  {
    if i == n then None else if rx[i].Matches(m) then Some(i) else FirstMatch(rx, m, i + 1, n)
  }

  /** What the linear search calls. */
  function SearchDispatch(rx: seq<RxBuffer>, m: Message): Option<nat> {
    var index := FirstMatch(rx, m, 0, |rx|);
    if index.Some? then rx[index.value].callback else None
  }

  /** The word with only bit `b` set. */
  function Probe(b: nat): bv16
    requires b < 16
  {
    [0x0001, 0x0002, 0x0004, 0x0008, 0x0010, 0x0020, 0x0040, 0x0080,
     0x0100, 0x0200, 0x0400, 0x0800, 0x1000, 0x2000, 0x4000, 0x8000][b]
  }

  predicate Selects(x: bv16, p: bv16) {
    x & p != 0
  }

  predicate Bit(x: bv16, b: nat)
    requires b < 16
  {
    Selects(x, Probe(b))
  }

  /** The words agree in bit `b`, if the mask compares it. */
  predicate AgreeAt(x: bv16, y: bv16, mask: bv16, b: nat)
    requires b < 16
  {
    Bit(mask, b) ==> (Bit(x, b) <==> Bit(y, b))
  }

  lemma SomeBit(d: bv16)
    ensures d != 0 <==>
      Selects(d, 0x0001) || Selects(d, 0x0002) || Selects(d, 0x0004) || Selects(d, 0x0008) ||
      Selects(d, 0x0010) || Selects(d, 0x0020) || Selects(d, 0x0040) || Selects(d, 0x0080) ||
      Selects(d, 0x0100) || Selects(d, 0x0200) || Selects(d, 0x0400) || Selects(d, 0x0800) ||
      Selects(d, 0x1000) || Selects(d, 0x2000) || Selects(d, 0x4000) || Selects(d, 0x8000)
  {
  }

  lemma SomeBitSet(d: bv16)
    ensures d != 0 <==> exists b: nat :: b < 16 && Bit(d, b)
  {
    SomeBit(d);
    if d != 0 {
      assert Bit(d, 0) || Bit(d, 1) || Bit(d, 2) || Bit(d, 3) || Bit(d, 4) || Bit(d, 5) || Bit(d, 6) || Bit(d, 7) ||
        Bit(d, 8) || Bit(d, 9) || Bit(d, 10) || Bit(d, 11) || Bit(d, 12) || Bit(d, 13) || Bit(d, 14) || Bit(d, 15);
    }
  }

  predicate Single(p: bv16) {
    p != 0 && p & (p - 1) == 0
  }

  lemma ProbeSingle(b: nat)
    requires b < 16
    ensures Single(Probe(b))
  {
  }

  lemma DifferingBit(x: bv16, y: bv16, mask: bv16, p: bv16)
    requires Single(p)
    ensures Selects((x ^ y) & mask, p) <==> Selects(mask, p) && (Selects(x, p) <==> !Selects(y, p))
  {
  }

  lemma DifferingAt(x: bv16, y: bv16, mask: bv16, b: nat)
    requires b < 16
    ensures Bit((x ^ y) & mask, b) <==> !AgreeAt(x, y, mask, b)
  {
    ProbeSingle(b);
    DifferingBit(x, y, mask, Probe(b));
  }

  /** Words are equal under a mask exactly if they agree in every bit it compares. */
  lemma MaskedBits(x: bv16, y: bv16, mask: bv16)
    ensures MaskedEqual(x, y, mask) <==> forall b: nat :: b < 16 ==> AgreeAt(x, y, mask, b)
  {
    var d := (x ^ y) & mask;
    SomeBitSet(d);
    forall b: nat | b < 16 ensures Bit(d, b) <==> !AgreeAt(x, y, mask, b) {
      DifferingAt(x, y, mask, b);
    }
  }

  /** Searching only the first `n` buffers calls what the whole search calls
      exactly when the first match is among them, or there is nothing to call. */
  lemma TruncatedSearch(rx: seq<RxBuffer>, m: Message, n: nat)
    requires n <= |rx|
    ensures SearchDispatch(rx[..n], m) == SearchDispatch(rx, m) <==>
      var first := FirstMatch(rx, m, 0, |rx|);
      first.None? || first.value < n || rx[first.value].callback.None?
  {
    var first, some := FirstMatch(rx, m, 0, |rx|), FirstMatch(rx[..n], m, 0, n);
    if some.Some? {
      assert rx[some.value].Matches(m);
    }
    if first.Some? && first.value < n {
      assert rx[..n][first.value].Matches(m);
    }
  }

  lemma SameRtr(sid: bv16, ident: bv16, rtr: bool, mask: bv16)
    requires sid < 0x800
    ensures MaskedEqual(Word(sid, rtr), Word(ident & 0x07FF, rtr), (mask & 0x07FF) | 0x0800) <==>
      MaskedEqual(sid, ident, mask & 0x07FF)
  {
  }

  lemma OtherRtr(sid: bv16, ident: bv16, rtr: bool, mask: bv16)
    requires sid < 0x800
    ensures !MaskedEqual(Word(sid, !rtr), Word(ident & 0x07FF, rtr), (mask & 0x07FF) | 0x0800)
  {
  }

  lemma MaskedWord(sid: bv16, r: bool, ident: bv16, rtr: bool, mask: bv16)
    requires sid < 0x800
    ensures MaskedEqual(Word(sid, r), Word(ident & 0x07FF, rtr), (mask & 0x07FF) | 0x0800) <==>
      r == rtr && MaskedEqual(sid, ident, mask & 0x07FF)
  {
    if r == rtr {
      SameRtr(sid, ident, rtr, mask);
    } else {
      OtherRtr(sid, ident, rtr, mask);
    }
  }

  lemma LowBits(mask: bv16, p: bv16)
    requires Single(p)
    ensures Selects(mask & 0x07FF, p) <==> p < 0x0800 && Selects(mask, p)
  {
  }

  lemma LowAgree(x: bv16, y: bv16, mask: bv16, b: nat)
    requires b < 16
    ensures AgreeAt(x, y, mask & 0x07FF, b) <==> b >= 11 || AgreeAt(x, y, mask, b)
  {
    ProbeSingle(b);
    LowBits(mask, Probe(b));
    assert Probe(b) < 0x0800 <==> b < 11;
  }

  lemma LowBitsAgree(x: bv16, y: bv16, mask: bv16)
    ensures MaskedEqual(x, y, mask & 0x07FF) <==> forall b: nat :: b < 11 ==> AgreeAt(x, y, mask, b)
  {
    MaskedBits(x, y, mask & 0x07FF);
    forall b: nat | b < 16 ensures AgreeAt(x, y, mask & 0x07FF, b) <==> b >= 11 || AgreeAt(x, y, mask, b) {
      LowAgree(x, y, mask, b);
    }
  }

  /** A buffer matches exactly the frames with its remote transmission bit whose
      identifier has the wanted value in each of the 11 bits that the mask compares. */
  lemma BufferMatches(ident: bv16, mask: bv16, rtr: bool, callback: nat, m: Message)
    requires m.Standard()
    ensures NewBuffer(ident, mask, rtr, callback).Matches(m) <==>
      m.rtr == rtr && forall b: nat :: b < 11 ==> AgreeAt(m.sid, ident, mask, b)
  {
    MaskedWord(m.sid, m.rtr, ident, rtr, mask);
    LowBitsAgree(m.sid, ident, mask);
  }

  /** With 256 buffers the 8-bit index finds none of them. */
  lemma TruncatedMisses(m: Message, callback: nat) returns (rx: seq<RxBuffer>)
    requires m.Standard()
    ensures |rx| == 256 && (forall i :: 0 <= i < |rx| ==> rx[i] == NewBuffer(m.sid, 0x07FF, m.rtr, callback))
    ensures SearchDispatch(rx, m) == Some(callback) && SearchDispatch(rx[..|rx| % 256], m) == None
  {
    var b := NewBuffer(m.sid, 0x07FF, m.rtr, callback);
    rx := seq(256, _ => b);
    MatchesItself(m, callback);
    assert rx[0].Matches(m);
    TruncatedSearch(rx, m, 0);
  }

  lemma MatchesItself(m: Message, callback: nat)
    requires m.Standard()
    ensures NewBuffer(m.sid, 0x07FF, m.rtr, callback).Matches(m)
  {
    NewAgrees(m.sid, 0x07FF, m.rtr, callback);
    ExactMatch(NewEntry(m.sid, m.rtr), NewBuffer(m.sid, 0x07FF, m.rtr, callback), m);
  }

  /** The entry that CO_CANrxBufferInit writes lists exactly the frames of its buffer. */
  predicate Agrees(e: Entry, b: RxBuffer) {
    Narrow(b.ident) && e.stid == Stid(b.ident) && e.rtr == RtrBit(b.ident)
  }

  /** The identifier and the remote transmission bit in a word. */
  function Stid(word: bv16): bv16 {
    word & 0x07FF
  }

  predicate RtrBit(word: bv16) {
    word & 0x0800 != 0
  }

  predicate Narrow(word: bv16) {
    word & 0xF000 == 0
  }

  predicate AllBits(mask: bv16) {
    mask & 0x0FFF == 0x0FFF
  }

  /** What CO_CANrxBufferInit writes to the buffer and to its filter entry. */
  function NewBuffer(ident: bv16, mask: bv16, rtr: bool, callback: nat): RxBuffer {
    RxBuffer(Word(ident & 0x07FF, rtr), (mask & 0x07FF) | 0x0800, Some(callback))
  }

  function NewEntry(ident: bv16, rtr: bool): Entry {
    Entry(ident & 0x07FF, rtr)
  }

  /** Filters and buffers describe the same identifiers, buffer `k` in entry `k`;
      the entries behind the buffers are unused. */
  predicate Configured(rx: seq<RxBuffer>, banks: seq<Bank>) {
    |banks| == |rx| / 4 + 1 && |banks| <= MAX_FILTERS &&
    forall k :: 0 <= k < 4 * |banks| ==>
      if k < |rx| then Agrees(EntryAt(banks, k), rx[k]) else EntryAt(banks, k) == Entry(0, false)
  }

  lemma AllBitsCompared(x: bv16, ident: bv16, mask: bv16)
    requires Narrow(x) && Narrow(ident) && AllBits(mask)
    ensures MaskedEqual(x, ident, mask) <==> x == ident
  {
  }

  lemma WordNarrow(sid: bv16, rtr: bool)
    requires sid < 0x800
    ensures Narrow(Word(sid, rtr)) && Stid(Word(sid, rtr)) == sid && RtrBit(Word(sid, rtr)) == rtr
  {
  }

  lemma WordRestored(word: bv16)
    requires Narrow(word)
    ensures Word(Stid(word), RtrBit(word)) == word
  {
  }

  lemma WordParts(sid: bv16, rtr: bool, ident: bv16)
    requires sid < 0x800 && Narrow(ident)
    ensures Narrow(Word(sid, rtr)) && (Word(sid, rtr) == ident <==> sid == Stid(ident) && rtr == RtrBit(ident))
  {
    WordNarrow(sid, rtr);
    WordRestored(ident);
  }

  lemma ExactMask(sid: bv16, rtr: bool, ident: bv16, mask: bv16)
    requires sid < 0x800 && Narrow(ident) && AllBits(mask)
    ensures MaskedEqual(Word(sid, rtr), ident, mask) <==> sid == Stid(ident) && rtr == RtrBit(ident)
  {
    WordParts(sid, rtr, ident);
    AllBitsCompared(Word(sid, rtr), ident, mask);
  }

  /** For an exact mask the filter entry and the buffer match the same frames. */
  lemma ExactMatch(e: Entry, b: RxBuffer, m: Message)
    requires Agrees(e, b) && b.Exact() && m.Standard()
    ensures Accepts(e, m) <==> b.Matches(m)
  {
    ExactMask(m.sid, m.rtr, b.ident, b.mask);
  }

  /** The filters ignore the mask: entry and buffer match the same frames exactly
      when the mask compares all identifier bits. */
  lemma MaskMatters(ident: bv16, mask: bv16, rtr: bool)
    ensures (forall m: Message :: m.Standard() ==>
        (Accepts(NewEntry(ident, rtr), m) <==> NewBuffer(ident, mask, rtr, 0).Matches(m)))
      <==> mask & 0x07FF == 0x07FF
  {
    var e, b := NewEntry(ident, rtr), NewBuffer(ident, mask, rtr, 0);
    NewAgrees(ident, mask, rtr, 0);
    if mask & 0x07FF == 0x07FF {
      forall m: Message | m.Standard() ensures Accepts(e, m) <==> b.Matches(m) {
        ExactMatch(e, b, m);
      }
    } else {
      var m := Message((ident & 0x07FF) ^ (!mask & 0x07FF), rtr);
      InexactBits(ident, mask, rtr);
      assert m.Standard() && !Accepts(e, m) && b.Matches(m);
    }
  }

  lemma InexactBits(ident: bv16, mask: bv16, rtr: bool)
    requires mask & 0x07FF != 0x07FF
    ensures var sid := (ident & 0x07FF) ^ (!mask & 0x07FF);
      sid < 0x800 && sid != ident & 0x07FF &&
      MaskedEqual(Word(sid, rtr), Word(ident & 0x07FF, rtr), (mask & 0x07FF) | 0x0800)
  {
  }

  lemma NewAgrees(ident: bv16, mask: bv16, rtr: bool, callback: nat)
    ensures Agrees(NewEntry(ident, rtr), NewBuffer(ident, mask, rtr, callback))
    ensures NewBuffer(ident, mask, rtr, callback).Exact() <==> mask & 0x07FF == 0x07FF
  {
  }

  /** For exact masks the filter path calls what the linear search calls. */
  lemma PathsAgree(rx: seq<RxBuffer>, banks: seq<Bank>, m: Message)
    requires Configured(rx, banks) && m.Standard()
    requires forall i :: 0 <= i < |rx| ==> rx[i].Exact()
    ensures FilterDispatch(rx, banks, m) == SearchDispatch(rx, m)
    ensures |rx| < 256
  {
    var f, s := MatchIndex(banks, m, 0), FirstMatch(rx, m, 0, |rx|);
    forall k | 0 <= k < |rx| ensures Accepts(EntryAt(banks, k), m) <==> rx[k].Matches(m) {
      ExactMatch(EntryAt(banks, k), rx[k], m);
    }
    if s.Some? {
      assert Accepts(EntryAt(banks, s.value), m);
    }
    if f.Some? && f.value < |rx| {
      assert rx[f.value].Matches(m);
    }
  }

  class CanReceiver {
    var rx: seq<RxBuffer>
    var banks: seq<Bank>
    var useFilters: bool

    ghost predicate Valid()
      reads this
    {
      useFilters ==> Configured(rx, banks)
    }

    /** `otherBanks` banks are taken by the second receive FIFO. */
    constructor (rxSize: nat, otherBanks: nat)
      ensures Valid() && useFilters == (rxSize / 4 + 1 + otherBanks <= MAX_FILTERS)
      ensures |rx| == rxSize && forall i :: 0 <= i < |rx| ==> rx[i].Exact() && rx[i].callback == None
    {
      rx := seq(rxSize, _ => RxBuffer(0, 0xFFFF, None));
      useFilters := rxSize / 4 + 1 + otherBanks <= MAX_FILTERS;
      banks := seq(rxSize / 4 + 1, _ => UNUSED);
    }

    /** `callback` is None when the caller passes no object or no function. */
    method RxBufferInit(index: nat, ident: bv16, mask: bv16, rtr: bool, callback: Option<nat>) returns (ok: bool)
      requires Valid()
      modifies this
      ensures Valid() && useFilters == old(useFilters)
      ensures ok == (callback.Some? && index < old(|rx|))
      ensures rx == if ok then old(rx)[index := NewBuffer(ident, mask, rtr, callback.value)] else old(rx)
      ensures ok && useFilters ==> EntryAt(banks, index) == NewEntry(ident, rtr)
      ensures !ok || !useFilters ==> banks == old(banks)
    {
      ok := callback.Some? && index < |rx|;
      if ok {
        rx := rx[index := NewBuffer(ident, mask, rtr, callback.value)];
        NewAgrees(ident, mask, rtr, callback.value);
        if useFilters {
          ghost var before := banks;
          banks := SetEntry(banks, index, NewEntry(ident, rtr));
          forall k | 0 <= k < 4 * |banks|
            ensures EntryAt(banks, k) == if k == index then NewEntry(ident, rtr) else EntryAt(before, k)
          {
            SetEntryAt(before, index, NewEntry(ident, rtr), k);
          }
        }
      }
    }

    /** The receive interrupt. With filters in use the hardware has delivered the
        frame together with its match index; the index of the search is 8 bits wide. */
    method Receive(m: Message) returns (called: Option<nat>)
      requires Valid() && m.Standard()
      ensures useFilters ==> called == FilterDispatch(rx, banks, m)
      ensures !useFilters ==> called == SearchDispatch(rx[..|rx| % 256], m)
      ensures !useFilters ==> (called == SearchDispatch(rx, m) <==>
        var first := FirstMatch(rx, m, 0, |rx|);
        first.None? || first.value < |rx| % 256 || rx[first.value].callback.None?)
      ensures |rx| < 256 && (forall i :: 0 <= i < |rx| ==> rx[i].Exact()) ==> called == SearchDispatch(rx, m)
    {
      called := None;
      if useFilters {
        var index := MatchIndex(banks, m, 0);
        if index.Some? && index.value < |rx| {
          called := rx[index.value].callback;
        }
        if forall i :: 0 <= i < |rx| ==> rx[i].Exact() {
          PathsAgree(rx, banks, m);
        }
      } else {
        var n := |rx| % 256;
        ghost var searched := rx[..n];
        var i := 0;
        while i < n
          invariant i <= n && forall j :: 0 <= j < i ==> !rx[j].Matches(m)
        {
          if rx[i].Matches(m) {
            called := rx[i].callback;
            break;
          }
          i := i + 1;
        }
        TruncatedSearch(rx, m, n);
        if |rx| < 256 {
          assert searched == rx;
        }
      }
    }
  }
}
