/** Bitmap allocation in block groups, as ext2 uses it for blocks and for inodes: one bitmap and one
    free count per group and a total in the superblock. */
module Ext2Space {
  import opened Options
  import opened Arithmetic
  import opened Bits

  /** `per` numbers in each group; number n is bit n % per of group n / per. */
  datatype Space = Space(per: nat, maps: seq<seq<bv8>>, free: seq<nat>, total: nat)

  datatype Place = Place(group: nat, bit: nat)

  // ----- Counting clear bits

  function Clear(s: seq<bv8>, n: nat): nat
    requires n <= 8 * |s|
  {
    if n == 0 then 0 else Clear(s, n - 1) + (if Bit(s, n - 1) then 0 else 1)
  }

  function Sum(s: seq<nat>): nat
  {
    if s == [] then 0 else s[0] + Sum(s[1..])
  }

  lemma {:induction false} ClearAfterSet(s: seq<bv8>, n: nat, b: nat)
    requires n <= 8 * |s| && b / 8 < |s| && !Bit(s, b)
    ensures Clear(SetBit(s, b), n) == Clear(s, n) - (if b < n then 1 else 0)
  {
    hide Bit;
    hide SetBit;
    if n > 0 {
      ClearAfterSet(s, n - 1, b);
      BitFrame(s, b, n - 1);
    }
  }

  lemma {:induction false} ClearAfterClear(s: seq<bv8>, n: nat, b: nat)
    requires n <= 8 * |s| && b / 8 < |s| && Bit(s, b)
    ensures Clear(ClearBit(s, b), n) == Clear(s, n) + (if b < n then 1 else 0)
  {
    hide Bit;
    hide ClearBit;
    if n > 0 {
      ClearAfterClear(s, n - 1, b);
      BitFrame(s, b, n - 1);
    }
  }

  lemma {:induction false} ClearPositive(s: seq<bv8>, n: nat, b: nat)
    requires b < n <= 8 * |s| && !Bit(s, b)
    ensures Clear(s, n) > 0
  {
    if b < n - 1 { ClearPositive(s, n - 1, b); }
  }

  lemma {:induction false} SumUpdate(s: seq<nat>, g: nat, v: nat)
    requires g < |s|
    ensures Sum(s[g := v]) == Sum(s) - s[g] + v
  {
    if g > 0 {
      SumUpdate(s[1..], g - 1, v);
      assert s[g := v][1..] == s[1..][g - 1 := v];
    } else {
      assert s[g := v][1..] == s[1..];
    }
  }

  lemma {:induction false} SumZero(s: seq<nat>)
    ensures Sum(s) == 0 <==> forall g :: 0 <= g < |s| ==> s[g] == 0
  {
    if s != [] {
      SumZero(s[1..]);
      assert forall g :: 0 <= g < |s[1..]| ==> s[1..][g] == s[g + 1];
      assert forall g :: 0 < g < |s| ==> s[g] == s[1..][g - 1];
    }
  }

  // ----- The invariant

  ghost predicate MapOk(sp: Space, g: nat)
    requires g < |sp.maps|
  {
    |sp.maps[g]| % 4 == 0 && sp.per <= 8 * |sp.maps[g]|
  }

  ghost predicate Shape(sp: Space)
  {
    sp.per > 0 && |sp.maps| == |sp.free| && forall g :: 0 <= g < |sp.maps| ==> MapOk(sp, g)
  }

  /** Every count equals the number of clear bits it stands for. */
  ghost predicate Inv(sp: Space)
  {
    && Shape(sp)
    && (forall g :: 0 <= g < |sp.maps| ==> MapOk(sp, g) && sp.free[g] == Clear(sp.maps[g], sp.per))
    && sp.total == Sum(sp.free)
  }

  // ----- Allocation and release

  /** The lowest clear bit from `k` on, below `n`. */
  function FirstClear(s: seq<bv8>, n: nat, k: nat): (r: Option<nat>)
    requires k <= n <= 8 * |s|
    ensures r.Some? ==> k <= r.value < n && !Bit(s, r.value) && forall j :: k <= j < r.value ==> Bit(s, j)
    ensures r.None? ==> forall j :: k <= j < n ==> Bit(s, j)
    decreases n - k
  {
    if k == n then None
    else if !Bit(s, k) then Some(k)
    else FirstClear(s, n, k + 1)
  }

  lemma {:induction false} FirstClearExists(s: seq<bv8>, n: nat)
    requires n <= 8 * |s|
    ensures FirstClear(s, n, 0).Some? <==> Clear(s, n) > 0
  {
    if FirstClear(s, n, 0).Some? {
      ClearPositive(s, n, FirstClear(s, n, 0).value);
    } else {
      ClearNone(s, n);
    }
  }

  lemma {:induction false} ClearNone(s: seq<bv8>, n: nat)
    requires n <= 8 * |s| && forall j :: 0 <= j < n ==> Bit(s, j)
    ensures Clear(s, n) == 0
  {
    if n > 0 { ClearNone(s, n - 1); }
  }

  /** The search over groups from `g` on: groups whose count is zero are passed over. */
  function SearchFrom(sp: Space, g: nat): (r: Option<Place>)
    requires Shape(sp) && g <= |sp.maps|
    ensures r.Some? ==> g <= r.value.group && Within(sp, r.value) && !BitAt(sp, r.value)
    ensures r.Some? ==> sp.free[r.value.group] > 0
    decreases |sp.maps| - g
  {
    if g == |sp.maps| then None
    else if sp.free[g] == 0 then SearchFrom(sp, g + 1)
    else
      assert MapOk(sp, g);
      var b := FirstClear(sp.maps[g], sp.per, 0);
      if b.Some? then Some(Place(g, b.value)) else SearchFrom(sp, g + 1)
  }

  predicate BitAt(sp: Space, p: Place)
    requires Shape(sp) && p.group < |sp.maps| && p.bit < sp.per
  {
    assert MapOk(sp, p.group);
    Bit(sp.maps[p.group], p.bit)
  }

  function Search(sp: Space): Option<Place>
    requires Shape(sp)
  {
    if sp.total == 0 then None else SearchFrom(sp, 0)
  }

  /** e2_alloc_inode's search: the first group whose count is not zero, and in it the first clear bit of
      the bytes that hold the group's bits.  It looks at no other group, and in a last byte that is
      only partly used it looks at all eight bits. */
  function FirstGroup(sp: Space, g: nat): (r: nat)
    requires Shape(sp) && g <= |sp.maps|
    ensures g <= r <= |sp.maps| && (r < |sp.maps| ==> sp.free[r] > 0)
    decreases |sp.maps| - g
  {
    if g == |sp.maps| || sp.free[g] != 0 then g else FirstGroup(sp, g + 1)
  }

  function BytesFor(n: nat): nat { if n % 8 == 0 then n / 8 else n / 8 + 1 }

  function SearchByBytes(sp: Space): (r: Option<Place>)
    requires Shape(sp)
    ensures r.Some? ==> r.value.group < |sp.maps| && r.value.bit / 8 < |sp.maps[r.value.group]| && sp.free[r.value.group] > 0
  {
    var g := FirstGroup(sp, 0);
    if sp.total == 0 || g == |sp.maps| then None
    else
      assert MapOk(sp, g);
      var b := FirstClear(sp.maps[g], 8 * BytesFor(sp.per), 0);
      if b.Some? then Some(Place(g, b.value)) else None
  }

  /** When the counts agree both searches find the same number. */
  lemma SearchesAgree(sp: Space)
    requires Inv(sp)
    ensures SearchByBytes(sp) == Search(sp)
  {
    hide Clear;
    hide FirstClear;
    hide Sum;
    FirstGroupSearch(sp, 0);
    var g := FirstGroup(sp, 0);
    if g < |sp.maps| {
      GroupFinds(sp, g);
      assert SearchFrom(sp, g) == Some(Place(g, FirstClear(sp.maps[g], sp.per, 0).value));
    }
  }

  lemma GroupFinds(sp: Space, g: nat)
    requires Inv(sp) && g < |sp.maps| && sp.free[g] > 0
    ensures MapOk(sp, g) && 8 * BytesFor(sp.per) <= 8 * |sp.maps[g]|
    ensures FirstClear(sp.maps[g], sp.per, 0).Some?
    ensures FirstClear(sp.maps[g], 8 * BytesFor(sp.per), 0) == FirstClear(sp.maps[g], sp.per, 0)
  {
    hide Sum;
    assert MapOk(sp, g);
    FirstClearExists(sp.maps[g], sp.per);
    FirstClearLonger(sp.maps[g], sp.per, 8 * BytesFor(sp.per), 0);
  }

  lemma {:induction false} FirstGroupSearch(sp: Space, g: nat)
    requires Shape(sp) && g <= |sp.maps|
    ensures SearchFrom(sp, g) == SearchFrom(sp, FirstGroup(sp, g))
    decreases |sp.maps| - g
  {
    if g < |sp.maps| && sp.free[g] == 0 { FirstGroupSearch(sp, g + 1); }
  }

  lemma {:induction false} FirstClearLonger(s: seq<bv8>, n: nat, m: nat, k: nat)
    requires k <= n <= m <= 8 * |s|
    ensures FirstClear(s, n, k).Some? ==> FirstClear(s, m, k) == FirstClear(s, n, k)
    decreases n - k
  {
    if k < n && Bit(s, k) { FirstClearLonger(s, n, m, k + 1); }
  }

  function Number(sp: Space, p: Place): nat { At(p.group, sp.per) + p.bit }

  function PlaceOf(sp: Space, n: nat): Place
    requires sp.per > 0
  {
    Place(Quotient(n, sp.per), Remainder(n, sp.per))
  }

  function Take(sp: Space, p: Place): Space
    requires Shape(sp) && p.group < |sp.maps| && p.bit / 8 < |sp.maps[p.group]|
    requires sp.free[p.group] > 0 && sp.total > 0
  {
    sp.(maps := sp.maps[p.group := SetBit(sp.maps[p.group], p.bit)],
        free := sp.free[p.group := sp.free[p.group] - 1], total := sp.total - 1)
  }

  function Give(sp: Space, p: Place): Space
    requires Shape(sp) && p.group < |sp.maps| && p.bit < sp.per
  {
    assert MapOk(sp, p.group);
    sp.(maps := sp.maps[p.group := ClearBit(sp.maps[p.group], p.bit)],
        free := sp.free[p.group := sp.free[p.group] + 1], total := sp.total + 1)
  }

  ghost predicate Within(sp: Space, p: Place) { p.group < |sp.maps| && MapOk(sp, p.group) && p.bit < sp.per }

  lemma NumberPlace(sp: Space, p: Place)
    requires sp.per > 0 && p.bit < sp.per
    ensures PlaceOf(sp, Number(sp, p)) == p
  {
    DivisionUnique(Number(sp, p), sp.per, p.group, p.bit);
  }

  lemma PlaceNumber(sp: Space, n: nat)
    requires sp.per > 0
    ensures Number(sp, PlaceOf(sp, n)) == n && PlaceOf(sp, n).bit < sp.per
  {
    Division(n, sp.per);
  }

  /** In a space with agreeing counts the search fails exactly when the total is zero; otherwise it
      finds the lowest free number. */
  lemma SearchFinds(sp: Space)
    requires Inv(sp)
    ensures Search(sp).None? <==> sp.total == 0
    ensures Search(sp).Some? ==>
              forall q :: Within(sp, q) && Before(q, Search(sp).value) ==> BitAt(sp, q)
  {
    SumZero(sp.free);
    SearchFromFinds(sp, 0);
  }

  ghost predicate Before(p: Place, q: Place) { p.group < q.group || (p.group == q.group && p.bit < q.bit) }

  lemma {:induction false} SearchFromFinds(sp: Space, g: nat)
    requires Inv(sp) && g <= |sp.maps|
    ensures SearchFrom(sp, g).None? <==> forall i :: g <= i < |sp.maps| ==> sp.free[i] == 0
    ensures SearchFrom(sp, g).Some? ==>
              forall q :: Within(sp, q) && g <= q.group && Before(q, SearchFrom(sp, g).value) ==> BitAt(sp, q)
    decreases |sp.maps| - g
  {
    if g < |sp.maps| {
      assert MapOk(sp, g);
      FirstClearExists(sp.maps[g], sp.per);
      if sp.free[g] == 0 {
        SearchFromFinds(sp, g + 1);
        assert FirstClear(sp.maps[g], sp.per, 0).None?;
      }
    }
  }

  lemma TakeKeepsInv(sp: Space, p: Place)
    requires Inv(sp) && Within(sp, p) && !BitAt(sp, p) && sp.free[p.group] > 0 && sp.total > 0
    ensures Inv(Take(sp, p))
    ensures forall q :: Within(sp, q) ==> (BitAt(Take(sp, p), q) <==> q == p || BitAt(sp, q))
  {
    TakeShape(sp, p);
    TakeBits(sp, p);
    assert MapOk(sp, p.group);
    ClearAfterSet(sp.maps[p.group], sp.per, p.bit);
    SumUpdate(sp.free, p.group, sp.free[p.group] - 1);
  }

  lemma TakeShape(sp: Space, p: Place)
    requires Shape(sp) && Within(sp, p) && sp.free[p.group] > 0 && sp.total > 0
    ensures Shape(Take(sp, p))
  {
    var t := Take(sp, p);
    forall g | 0 <= g < |t.maps| ensures MapOk(t, g) { assert MapOk(sp, g); }
  }

  lemma TakeBits(sp: Space, p: Place)
    requires Shape(sp) && Within(sp, p) && sp.free[p.group] > 0 && sp.total > 0
    ensures Shape(Take(sp, p))
    ensures forall q :: Within(sp, q) ==> (BitAt(Take(sp, p), q) <==> q == p || BitAt(sp, q))
  {
    TakeShape(sp, p);
    forall q | Within(sp, q) ensures BitAt(Take(sp, p), q) <==> q == p || BitAt(sp, q) {
      assert MapOk(sp, q.group);
      if q.group == p.group { BitFrame(sp.maps[p.group], p.bit, q.bit); }
    }
  }

  lemma GiveBits(sp: Space, p: Place)
    requires Shape(sp) && Within(sp, p)
    ensures Shape(Give(sp, p))
    ensures forall q :: Within(sp, q) ==> (BitAt(Give(sp, p), q) <==> q != p && BitAt(sp, q))
  {
    var t := Give(sp, p);
    forall g | 0 <= g < |t.maps| ensures MapOk(t, g) { assert MapOk(sp, g); }
    forall q | Within(sp, q) ensures BitAt(t, q) <==> q != p && BitAt(sp, q) {
      assert MapOk(sp, q.group);
      if q.group == p.group { BitFrame(sp.maps[p.group], p.bit, q.bit); }
    }
  }

  lemma GiveKeepsInv(sp: Space, p: Place)
    requires Inv(sp) && Within(sp, p) && BitAt(sp, p)
    ensures Inv(Give(sp, p))
    ensures forall q :: Within(sp, q) ==> (BitAt(Give(sp, p), q) <==> q != p && BitAt(sp, q))
  {
    GiveBits(sp, p);
    assert MapOk(sp, p.group);
    ClearAfterClear(sp.maps[p.group], sp.per, p.bit);
    SumUpdate(sp.free, p.group, sp.free[p.group] + 1);
  }

  /** Releasing a number keeps the counts in agreement exactly when its bit was set: a second release
      counts a bit twice. */
  lemma GiveInvIff(sp: Space, p: Place)
    requires Inv(sp) && Within(sp, p)
    ensures Inv(Give(sp, p)) <==> BitAt(sp, p)
  {
    if BitAt(sp, p) {
      GiveKeepsInv(sp, p);
    } else {
      assert MapOk(sp, p.group);
      var s := sp.maps[p.group];
      AlreadyClear(s[p.bit / 8], p.bit % 8);
      assert ClearBit(s, p.bit) == s;
      assert Give(sp, p).free[p.group] == Clear(Give(sp, p).maps[p.group], sp.per) + 1;
    }
  }

  lemma AlreadyClear(x: bv8, k: nat)
    requires k < 8 && !Test8(x, k)
    ensures Clear8(x, k) == x
  {
    Cases8(k);
  }

  /** Giving back what was just taken restores bitmaps, counts and total. */
  lemma GiveUndoesTake(sp: Space, p: Place)
    requires Inv(sp) && Within(sp, p) && !BitAt(sp, p) && sp.free[p.group] > 0 && sp.total > 0
    ensures Shape(Take(sp, p)) && Give(Take(sp, p), p) == sp
  {
    TakeShape(sp, p);
    assert MapOk(sp, p.group);
    ByteBack(sp.maps[p.group][p.bit / 8], p.bit % 8);
    var s := sp.maps[p.group];
    assert ClearBit(SetBit(s, p.bit), p.bit) == s by {
      hide Set8;
      hide Clear8;
    }
    assert sp.maps[p.group := SetBit(s, p.bit)][p.group := s] == sp.maps;
    assert sp.free[p.group := sp.free[p.group] - 1][p.group := sp.free[p.group]] == sp.free;
  }

  lemma ByteBack(x: bv8, k: nat)
    requires k < 8 && !Test8(x, k)
    ensures Clear8(Set8(x, k), k) == x
  {
    Cases8(k);
  }

  // ----- Whole runs

  datatype Call = Allocate | Release(n: nat)

  /** The space and the numbers its callers hold. */
  datatype State = State(sp: Space, held: set<nat>)

  ghost predicate Holds(sp: Space, n: nat)
    requires Shape(sp)
  {
    Within(sp, PlaceOf(sp, n)) && BitAt(sp, PlaceOf(sp, n))
  }

  ghost predicate Good(s: State)
  {
    Inv(s.sp) && forall n :: n in s.held ==> Holds(s.sp, n)
  }

  /** One call; releasing a number that is not held is not part of a run. */
  ghost function Step(s: State, c: Call): Option<State>
    requires Good(s)
  {
    match c
    case Allocate =>
      var p := Search(s.sp);
      if p.None? then Some(s) else Some(State(Take(s.sp, p.value), s.held + {Number(s.sp, p.value)}))
    case Release(n) =>
      if n !in s.held then None
      else
        assert Holds(s.sp, n);
        Some(State(Give(s.sp, PlaceOf(s.sp, n)), s.held - {n}))
  }

  /** What a step keeps: agreement of all counts, the bits of held numbers, and free plus held. */
  lemma StepKeeps(s: State, c: Call)
    requires Good(s) && Step(s, c).Some?
    ensures var t := Step(s, c).value;
            Good(t) && t.sp.total + |t.held| == s.sp.total + |s.held| && t.sp.per == s.sp.per
  {
    match c
    case Allocate =>
      if Search(s.sp).Some? { AllocateKeeps(s); }
    case Release(n) => ReleaseKeeps(s, n);
  }

  /** An allocation hands out a number nobody holds. */
  lemma AllocateFresh(s: State)
    requires Good(s) && Search(s.sp).Some?
    ensures Number(s.sp, Search(s.sp).value) !in s.held
  {
    var p := Search(s.sp).value;
    NumberPlace(s.sp, p);
    assert Number(s.sp, p) in s.held ==> Holds(s.sp, Number(s.sp, p));
  }

  lemma AllocateKeeps(s: State)
    requires Good(s) && Search(s.sp).Some?
    ensures var t := Step(s, Allocate).value;
            Good(t) && t.sp.total + |t.held| == s.sp.total + |s.held| && t.sp.per == s.sp.per
  {
    SearchFinds(s.sp);
    AllocateFresh(s);
    var p := Search(s.sp).value;
    TakeKeepsInv(s.sp, p);
    NumberPlace(s.sp, p);
    var t := Step(s, Allocate).value;
    forall n | n in t.held ensures Holds(t.sp, n) {
      if n != Number(s.sp, p) { assert Holds(s.sp, n); }
    }
  }

  lemma ReleaseKeeps(s: State, n: nat)
    requires Good(s) && n in s.held
    ensures var t := Step(s, Release(n)).value;
            Good(t) && t.sp.total + |t.held| == s.sp.total + |s.held| && t.sp.per == s.sp.per
  {
    assert Holds(s.sp, n);
    var p := PlaceOf(s.sp, n);
    GiveKeepsInv(s.sp, p);
    var t := Step(s, Release(n)).value;
    forall m | m in t.held ensures Holds(t.sp, m) {
      assert Holds(s.sp, m);
      PlaceNumber(s.sp, m);
      PlaceNumber(s.sp, n);
    }
  }

  ghost function Run(s: State, cs: seq<Call>): Option<State>
    requires Good(s)
    decreases |cs|
  {
    if cs == [] then Some(s)
    else if Step(s, cs[0]).None? then None
    else
      StepKeeps(s, cs[0]);
      Run(Step(s, cs[0]).value, cs[1..])
  }

  /** Over every run from agreeing counts: each group's count and the total stay the number of clear
      bits, every held number's bit stays set, and free plus held numbers never change in number. */
  lemma {:induction false} RunKeeps(s: State, cs: seq<Call>)
    requires Good(s) && Run(s, cs).Some?
    ensures var t := Run(s, cs).value;
            Good(t) && t.sp.total + |t.held| == s.sp.total + |s.held|
    decreases |cs|
  {
    if cs != [] {
      StepKeeps(s, cs[0]);
      RunKeeps(Step(s, cs[0]).value, cs[1..]);
    }
  }

  ghost predicate Vacant(sp: Space, n: nat)
    requires Shape(sp)
  {
    Within(sp, PlaceOf(sp, n)) && !BitAt(sp, PlaceOf(sp, n))
  }

  /** The numbers that allocations hand out until none is left, in order. */
  ghost function Supply(s: State): seq<nat>
    requires Good(s)
    decreases s.sp.total
  {
    if Search(s.sp).None? then []
    else
      AllocateFresh(s);
      AllocateKeeps(s);
      [Number(s.sp, Search(s.sp).value)] + Supply(Step(s, Allocate).value)
  }

  /** They are all the free numbers, each once. */
  lemma {:induction false} SupplyIsVacant(s: State)
    requires Good(s)
    ensures |Supply(s)| == s.sp.total
    ensures forall n: nat :: n in Supply(s) <==> Vacant(s.sp, n)
    ensures forall i, j :: 0 <= i < j < |Supply(s)| ==> Supply(s)[i] != Supply(s)[j]
    decreases s.sp.total
  {
    SearchFinds(s.sp);
    if Search(s.sp).None? {
      NoneVacant(s.sp);
    } else {
      AllocateFresh(s);
      AllocateKeeps(s);
      var t := Step(s, Allocate).value;
      SupplyIsVacant(t);
      OneTaken(s);
      hide Step;
      hide Search;
      hide Good;
      hide Vacant;
    }
  }

  lemma OneTaken(s: State)
    requires Good(s) && Search(s.sp).Some?
    ensures var t, m := Step(s, Allocate).value, Number(s.sp, Search(s.sp).value);
            && Shape(t.sp) && Vacant(s.sp, m) && !Vacant(t.sp, m)
            && forall n: nat :: n != m ==> (Vacant(t.sp, n) <==> Vacant(s.sp, n))
  {
    var p := Search(s.sp).value;
    TakeShape(s.sp, p);
    TakeBits(s.sp, p);
    NumberPlace(s.sp, p);
    forall n: nat ensures n != Number(s.sp, p) ==> PlaceOf(s.sp, n) != p { PlaceNumber(s.sp, n); }
  }

  lemma NoneVacant(sp: Space)
    requires Inv(sp) && sp.total == 0
    ensures forall n: nat :: !Vacant(sp, n)
  {
    SumZero(sp.free);
    forall n: nat ensures !Vacant(sp, n) {
      var p := PlaceOf(sp, n);
      if Within(sp, p) {
        assert sp.free[p.group] == 0;
        if !BitAt(sp, p) { ClearPositive(sp.maps[p.group], sp.per, p.bit); }
      }
    }
  }

  /** e2_alloc_block reports failure as block 0.  With agreeing counts that is wrong exactly when
      block 0 itself is still free: then it is the block handed out. */
  lemma ZeroIsFailure(sp: Space)
    requires Inv(sp) && sp.total > 0
    ensures Search(sp).Some?
    ensures Number(sp, Search(sp).value) == 0 <==> |sp.maps| > 0 && !BitAt(sp, Place(0, 0))
  {
    SearchFinds(sp);
    var p := Search(sp).value;
    NumberPlace(sp, p);
    NumberPlace(sp, Place(0, 0));
    if p != Place(0, 0) { assert Before(Place(0, 0), p) && Within(sp, Place(0, 0)); }
  }

  // ----- Inputs that show what goes wrong

  /** One group of bitmap bytes that are all alike, with `per` numbers. */
  function Uniform(per: nat, words: nat, x: bv8, free: nat): Space { Space(per, [seq(4 * words, i => x)], [free], free) }

  lemma UniformShape(per: nat, words: nat, x: bv8, free: nat)
    requires 0 < per <= 32 * words
    ensures Shape(Uniform(per, words, x, free)) && Within(Uniform(per, words, x, free), Place(0, 0))
    ensures Sum([free]) == free
  {
    assert MapOk(Uniform(per, words, x, free), 0);
    assert [free][1..] == [];
  }

  /** A group in which every number is free. */
  lemma EmptyGroup(per: nat, words: nat)
    requires 0 < per <= 32 * words
    ensures var sp := Uniform(per, words, 0, per);
            Inv(sp) && forall b: nat :: b < per ==> Within(sp, Place(0, b)) && !BitAt(sp, Place(0, b))
  {
    UniformShape(per, words, 0, per);
    var s: seq<bv8> := seq(4 * words, i => 0);
    ClearAll(s, per);
  }

  lemma {:induction false} ClearAll(s: seq<bv8>, n: nat)
    requires n <= 8 * |s| && forall i :: 0 <= i < |s| ==> s[i] == 0
    ensures Clear(s, n) == n && forall b :: 0 <= b < n ==> !Bit(s, b)
  {
    if n > 0 { ClearAll(s, n - 1); }
  }

  /** A group in which every number is taken. */
  lemma FullGroup(per: nat, words: nat)
    requires 0 < per <= 32 * words
    ensures var sp := Uniform(per, words, 0xFF, 0);
            Inv(sp) && forall b: nat :: b < per ==> Within(sp, Place(0, b)) && BitAt(sp, Place(0, b))
  {
    UniformShape(per, words, 0xFF, 0);
    FullByte(0xFF);
    var s: seq<bv8> := seq(4 * words, i => 0xFF);
    hide Test8;
    assert forall b :: 0 <= b < per ==> Bit(s, b);
    ClearNone(s, per);
  }

  /** In a group in which every number is free, the first allocation hands out block 0, which is also the answer
      for failure. */
  lemma ZeroHandedOut(per: nat, words: nat)
    requires 0 < per <= 32 * words
    ensures var sp := Uniform(per, words, 0, per);
            Inv(sp) && Search(sp).Some? && Number(sp, Search(sp).value) == 0
  {
    EmptyGroup(per, words);
    UniformShape(per, words, 0, per);
    ZeroIsFailure(Uniform(per, words, 0, per));
  }

  /** There, releasing any number makes the counts disagree with the bits. */
  lemma FreedTwice(per: nat, words: nat, b: nat)
    requires 0 < per <= 32 * words && b < per
    ensures var sp := Uniform(per, words, 0, per); Inv(sp) && Within(sp, Place(0, b)) && !Inv(Give(sp, Place(0, b)))
  {
    EmptyGroup(per, words);
    UniformShape(per, words, 0, per);
    GiveInvIff(Uniform(per, words, 0, per), Place(0, b));
  }
}
