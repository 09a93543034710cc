/** What the blink driver is meant to keep: a list of blinking cells, the most recently added first. */
module BlinkList {

  const POOL_SIZE := 80 * 25
  const WORD := 0x1_0000
  const SIGN := 0x8000

  /** One blinking cell; the numbers are unsigned 16-bit words. */
  datatype Entry = Entry(
    location: int, onChar: int, offChar: int, onLength: int, offLength: int, countdown: int, status: int)

  ghost predicate IsWord(x: int) {
    0 <= x < WORD
  }

  ghost predicate Words(e: Entry) {
    IsWord(e.location) && IsWord(e.onLength) && IsWord(e.offLength) && IsWord(e.countdown) && IsWord(e.status)
  }

  /** Decrement in 16 bits. */
  function Decrement(x: int): int {
    (x - 1) % WORD
  }

  /** The signed comparison of a 16-bit word with zero. */
  predicate Positive(x: int) {
    0 < x < SIGN
  }

  function Flip(status: int): int {
    if status % 2 == 1 then status - 1 else status + 1
  }

  /** One timer tick: count down, and at the end of the phase start the other one. */
  function TickEntry(e: Entry): Entry {
    var c := Decrement(e.countdown);
    if Positive(c) then e.(countdown := c)
    else e.(countdown := if e.status % 2 == 1 then e.offLength else e.onLength, status := Flip(e.status))
  }

  function Started(e: Entry): Entry {
    e.(status := 1, countdown := e.onLength)
  }

  datatype Op = Add(e: Entry) | Remove(location: int) | Sync(source: int, target: int) | Tick

  /** The first entry at a location, or the length of the list. */
  ghost function IndexAt(list: seq<Entry>, location: int): (i: nat)
    ensures i <= |list|
    ensures i < |list| ==> list[i].location == location
    ensures forall j :: 0 <= j < i ==> list[j].location != location
  {
    if list == [] || list[0].location == location then 0 else 1 + IndexAt(list[1..], location)
  }

  lemma IndexAtUnique(list: seq<Entry>, location: int, i: nat)
    requires i <= |list| && (i < |list| ==> list[i].location == location)
    requires forall j :: 0 <= j < i ==> list[j].location != location
    ensures IndexAt(list, location) == i
  {
    var k := IndexAt(list, location);
  }

  ghost function Synced(source: Entry, target: Entry): Entry {
    target.(onLength := source.onLength, offLength := source.offLength,
            countdown := source.countdown, status := source.status)
  }

  ghost function SyncList(list: seq<Entry>, source: int, target: int): seq<Entry> {
    var i, j := IndexAt(list, source), IndexAt(list, target);
    if i == |list| || j == |list| then list else list[j := Synced(list[i], list[j])]
  }

  ghost function RemoveList(list: seq<Entry>, location: int): seq<Entry> {
    var i := IndexAt(list, location);
    if i == |list| then list else list[..i] + list[i + 1..]
  }

  ghost function TickList(list: seq<Entry>): (r: seq<Entry>)
    ensures |r| == |list|
  {
    seq(|list|, i requires 0 <= i < |list| => TickEntry(list[i]))
  }

  /** An entry is refused when its location is off the screen or the pool is full. */
  ghost function AddList(list: seq<Entry>, e: Entry): seq<Entry> {
    if e.location >= POOL_SIZE || |list| >= POOL_SIZE then list else [Started(e)] + list
  }

  ghost function Apply(list: seq<Entry>, op: Op): seq<Entry> {
    match op
    case Add(e) => AddList(list, e)
    case Remove(l) => RemoveList(list, l)
    case Sync(s, t) => SyncList(list, s, t)
    case Tick => TickList(list)
  }

  ghost function Run(list: seq<Entry>, ops: seq<Op>): seq<Entry> {
    if ops == [] then list else Apply(Run(list, ops[..|ops| - 1]), ops[|ops| - 1])
  }

  // ----- what the operations mean for the list -----

  /** Entry `i` is the most recently added one at a location. */
  ghost predicate IsFirst(list: seq<Entry>, location: int, i: int) {
    0 <= i < |list| && list[i].location == location && forall j :: 0 <= j < i ==> list[j].location != location
  }

  lemma FirstIsIndex(list: seq<Entry>, location: int)
    ensures forall i :: IsFirst(list, location, i) ==> i == IndexAt(list, location)
    ensures IndexAt(list, location) < |list| <==> IsFirst(list, location, IndexAt(list, location))
  {
    forall i | IsFirst(list, location, i) ensures i == IndexAt(list, location) {
      IndexAtUnique(list, location, i);
    }
  }

  /** An accepted entry is on, at the start of its first phase, in front of the others; the rest of the list, and the
      list of a refused one, stay as they are. */
  lemma AddMeaning(list: seq<Entry>, e: Entry)
    ensures var r := Apply(list, Add(e));
      if e.location < POOL_SIZE && |list| < POOL_SIZE then
        r == [Entry(e.location, e.onChar, e.offChar, e.onLength, e.offLength, e.onLength, 1)] + list
      else r == list
  {
  }

  /** A remove takes out the most recently added entry at the location, and keeps the order of the rest. */
  lemma RemoveMeaning(list: seq<Entry>, location: int)
    ensures forall i | IsFirst(list, location, i) :: Apply(list, Remove(location)) == list[..i] + list[i + 1..]
    ensures (forall i :: !IsFirst(list, location, i)) ==> Apply(list, Remove(location)) == list
  {
    FirstIsIndex(list, location);
  }

  /** An accepted add and a remove of its location cancel. */
  lemma AddThenRemove(list: seq<Entry>, e: Entry)
    requires e.location < POOL_SIZE && |list| < POOL_SIZE
    ensures Run(list, [Add(e), Remove(e.location)]) == list
  {
    var ops := [Add(e), Remove(e.location)];
    assert ops[..1] == [Add(e)] && [Add(e)][..0] == [];
    var added := Apply(list, Add(e));
    assert Run(list, [Add(e)]) == added;
    AddMeaning(list, e);
    assert IsFirst(added, e.location, 0);
    RemoveMeaning(added, e.location);
    assert added[..0] + added[1..] == list;
  }

  /** A sync gives the target the lengths, the countdown and the status of the source; the target keeps its place and
      its characters, and everything else stays. */
  lemma SyncMeaning(list: seq<Entry>, source: int, target: int)
    ensures forall i, j | IsFirst(list, source, i) && IsFirst(list, target, j) ::
      Apply(list, Sync(source, target)) == list[j := Entry(target, list[j].onChar, list[j].offChar, list[i].onLength,
                                                           list[i].offLength, list[i].countdown, list[i].status)]
    ensures (forall i :: !IsFirst(list, source, i)) || (forall i :: !IsFirst(list, target, i)) ==>
      Apply(list, Sync(source, target)) == list
  {
    FirstIsIndex(list, source);
    FirstIsIndex(list, target);
  }

  // ----- the blinking phase in closed form -----

  /** How many ticks a phase of a given length lasts. Only 1 to 32768 count as they say; the signed comparison cuts
      every other length to one tick. */
  ghost function Lasting(length: int): (n: int)
    ensures n >= 1
  {
    if 1 <= length <= SIGN then length else 1
  }

  /** The entry `n` ticks after it was started. */
  ghost function PhaseAt(e: Entry, n: nat): Entry {
    var a := Lasting(e.onLength);
    var m := n % (a + Lasting(e.offLength));
    if m < a then e.(status := 1, countdown := e.onLength - m)
    else e.(status := 0, countdown := e.offLength - (m - a))
  }

  lemma NextModulo(n: nat, p: nat)
    requires p >= 1
    ensures (n + 1) % p == if n % p + 1 == p then 0 else n % p + 1
  {
    assert n == p * (n / p) + n % p;
    var q := n / p;
    if n % p + 1 == p {
      assert n + 1 == p * (q + 1);
      DivisionUnique(n + 1, p, q + 1, 0);
    } else {
      DivisionUnique(n + 1, p, q, n % p + 1);
    }
  }

  lemma DivisionUnique(x: nat, p: nat, q: nat, r: nat)
    requires p >= 1 && x == p * q + r && r < p
    ensures x % p == r
  {
    assert x == p * (x / p) + x % p;
    QuotientUnique(p, q, r, x / p, x % p);
  }

  lemma QuotientUnique(p: nat, q: nat, r: nat, k: nat, m: nat)
    requires p * q + r == p * k + m && r < p && m < p
    ensures r == m
  {
    if k > q {
      AtLeastOnce(p, q, k);
    } else if q > k {
      AtLeastOnce(p, k, q);
    }
  }

  lemma AtLeastOnce(p: nat, a: nat, b: nat)
    requires a < b
    ensures p * b >= p * a + p
  {
    assert p * b == p * a + p * (b - a) == p * a + p + p * (b - a - 1);
  }

  lemma PhaseTicks(e: Entry, n: nat)
    requires Words(e)
    ensures TickEntry(PhaseAt(e, n)) == PhaseAt(e, n + 1)
    ensures PhaseAt(e, 0) == Started(e)
  {
    var a := Lasting(e.onLength);
    NextModulo(n, a + Lasting(e.offLength));
  }

  // ----- runs -----

  ghost function Ticks(ops: seq<Op>): nat {
    if ops == [] then 0 else Ticks(ops[..|ops| - 1]) + if ops[|ops| - 1].Tick? then 1 else 0
  }

  /** What a client may ask for: the numbers are words, and nothing is added at location 0, which marks a free cell
      and where the driver loses its list. */
  ghost predicate Proper(op: Op) {
    match op
    case Add(e) => Words(e) && e.location != 0
    case Remove(l) => IsWord(l)
    case Sync(s, t) => IsWord(s) && IsWord(t)
    case Tick => true
  }

  /** A proper operation that does not concern the entry at `location`, except that it may tick. */
  ghost predicate Elsewhere(op: Op, location: int) {
    Proper(op) &&
    match op
    case Add(e) => e.location != location
    case Remove(l) => l != location
    case Sync(_, t) => t != location
    case Tick => true
  }

  lemma RemoveElsewhere(list: seq<Entry>, removed: int, location: int)
    requires IndexAt(list, location) < |list| && removed != location
    ensures var r := RemoveList(list, removed); var i, k := IndexAt(list, location), IndexAt(r, location);
      k < |r| && r[k] == list[i]
  {
    hide IndexAt;
    var i, j := IndexAt(list, location), IndexAt(list, removed);
    if j < |list| {
      var r := list[..j] + list[j + 1..];
      assert forall m :: 0 <= m < |r| ==> r[m] == if m < j then list[m] else list[m + 1];
      IndexAtUnique(r, location, if i < j then i else i - 1);
    }
  }

  lemma ApplyElsewhere(list: seq<Entry>, op: Op, location: int)
    requires IndexAt(list, location) < |list| && Elsewhere(op, location)
    ensures var r := Apply(list, op); var i, k := IndexAt(list, location), IndexAt(r, location);
      k < |r| && r[k] == if op.Tick? then TickEntry(list[i]) else list[i]
  {
    hide IndexAt;
    var i := IndexAt(list, location);
    match op
    case Add(e) =>
      if Apply(list, op) != list {
        IndexAtUnique([Started(e)] + list, location, i + 1);
      }
    case Remove(l) => RemoveElsewhere(list, l, location);
    case Sync(s, t) => IndexAtUnique(SyncList(list, s, t), location, i);
    case Tick => IndexAtUnique(TickList(list), location, i);
  }

  /** Whatever else is added, removed or synchronized meanwhile, an entry is in the phase that the ticks since it was
      added say: on if and only if the tick number modulo the period is below the on length. */
  lemma {:induction false} EntryInPhase(list: seq<Entry>, e: Entry, ops: seq<Op>)
    requires Words(e) && 0 < e.location < POOL_SIZE && |list| < POOL_SIZE
    requires forall i :: 0 <= i < |ops| ==> Elsewhere(ops[i], e.location)
    ensures var r := Run(AddList(list, e), ops); var k := IndexAt(r, e.location);
      k < |r| && r[k] == PhaseAt(e, Ticks(ops))
  {
    hide IndexAt, PhaseAt, TickEntry, Apply, Lasting;
    PhaseTicks(e, 0);
    if ops == [] {
      IndexAtUnique(AddList(list, e), e.location, 0);
    } else {
      hide AddList;
      var n := |ops| - 1;
      EntryInPhase(list, e, ops[..n]);
      ApplyElsewhere(Run(AddList(list, e), ops[..n]), ops[n], e.location);
      PhaseTicks(e, Ticks(ops[..n]));
    }
  }

  ghost predicate SamePhase(e: Entry, d: Entry) {
    e.onLength == d.onLength && e.offLength == d.offLength && e.countdown == d.countdown && e.status == d.status
  }

  /** Two synchronized entries keep blinking together, whatever happens to the others. */
  lemma {:induction false} SyncedTogether(list: seq<Entry>, source: int, target: int, ops: seq<Op>)
    requires source != 0 && target != 0 && IndexAt(list, source) < |list| && IndexAt(list, target) < |list|
    requires forall i :: 0 <= i < |ops| ==> Elsewhere(ops[i], source) && Elsewhere(ops[i], target)
    ensures var r := Run(SyncList(list, source, target), ops); var i, j := IndexAt(r, source), IndexAt(r, target);
      i < |r| && j < |r| && SamePhase(r[i], r[j])
  {
    hide IndexAt;
    if ops == [] {
      IndexAtUnique(SyncList(list, source, target), source, IndexAt(list, source));
      IndexAtUnique(SyncList(list, source, target), target, IndexAt(list, target));
    } else {
      hide Apply, SyncList, TickEntry;
      var n := |ops| - 1;
      var before := Run(SyncList(list, source, target), ops[..n]);
      SyncedTogether(list, source, target, ops[..n]);
      ApplyElsewhere(before, ops[n], source);
      ApplyElsewhere(before, ops[n], target);
      TicksTogether(before[IndexAt(before, source)], before[IndexAt(before, target)]);
    }
  }

  lemma TicksTogether(e: Entry, d: Entry)
    requires SamePhase(e, d)
    ensures SamePhase(TickEntry(e), TickEntry(d))
  {
  }
}
