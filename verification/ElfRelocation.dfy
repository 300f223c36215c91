/** Symbols and relocations of a loadable module (kernel/src/elf32.c, elf_resolve and elf_relocate; the
    relocation types are those of chapter 4, "Relocation", of the System V ABI Intel386 supplement). */
module ElfRelocation {
  import opened Options
  import opened BlockDevice
  import opened LittleEndian

  const WORD: nat := 0x1_0000_0000

  /** sizeof(Elf32_Ehdr), which is not loaded. */
  const EHDR: nat := 52

  /** The entry of the section header table, as far as it matters here. */
  datatype Section = Section(alloc: bool, nobits: bool, offset: nat, size: nat)

  /** st_shndx */
  datatype Index = Undef | Abs | Common | In(section: nat)

  /** A symbol; no name where st_name is outside the string table. */
  datatype Sym = Sym(name: Option<string>, value: nat, index: Index)

  datatype Kind = Nothing | CopyIt | Abs32 | Pc32 | GlobDat | JmpSlot | Unsupported

  /** A relocation of the word at offset `place` of the module, with an addend of its own in a table of type
      SHT_RELA. */
  datatype Rel = Rel(place: nat, sym: nat, kind: Kind, addend: Option<int>)

  /** What relocating needs besides: the kernel's symbols, the sections, and the address of the module. */
  datatype Env = Env(kernel: seq<(string, nat)>, sections: seq<Section>, base: nat)

  function Mod32(x: int): (r: nat)
    ensures r < WORD
  {
    x % WORD
  }

  // ----- Symbols

  /** The value of a kernel symbol: that of the first with the name. */
  function KernelValue(kernel: seq<(string, nat)>, name: string): Option<nat>
  {
    if kernel == [] then None
    else if kernel[0].0 == name then Some(kernel[0].1)
    else KernelValue(kernel[1..], name)
  }

  /** There is a value exactly when the kernel has the name, and it is that of the first symbol with it. */
  lemma {:induction false} KernelFirst(kernel: seq<(string, nat)>, name: string)
    ensures KernelValue(kernel, name).None? <==> forall i :: 0 <= i < |kernel| ==> kernel[i].0 != name
    ensures KernelValue(kernel, name).Some? ==>
              exists i :: && 0 <= i < |kernel| && kernel[i] == (name, KernelValue(kernel, name).value)
                          && forall j :: 0 <= j < i ==> kernel[j].0 != name
  {
    if kernel != [] {
      var rest := kernel[1..];
      KernelFirst(rest, name);
      assert forall i :: 0 < i < |kernel| ==> kernel[i] == rest[i - 1];
      if kernel[0].0 != name && KernelValue(rest, name).Some? {
        var i :| && 0 <= i < |rest| && rest[i] == (name, KernelValue(rest, name).value)
                 && forall j :: 0 <= j < i ==> rest[j].0 != name;
        assert kernel[i + 1] == rest[i];
      }
    }
  }

  /** elf_resolve: an undefined symbol is rewritten to the kernel's value, or there is an error. */
  function Resolve(env: Env, sym: Sym): Option<Sym>
  {
    match sym.index
    case Undef =>
      if sym.name.None? then None
      else
        (match KernelValue(env.kernel, sym.name.value)
         case None => None
         case Some(v) => Some(sym.(value := v, index := Abs)))
    case Common => None
    case Abs => Some(sym)
    case In(_) => Some(sym)
  }

  /** The address a symbol stands for. */
  function Address(env: Env, sym: Sym): Option<nat>
  {
    match sym.index
    case Undef => if sym.name.None? then None else KernelValue(env.kernel, sym.name.value)
    case Abs => Some(sym.value)
    case Common => None
    case In(k) => if k < |env.sections| then Some(Mod32(sym.value + env.sections[k].offset - EHDR + env.base)) else None
  }

  /** Rewriting a symbol does not change what it stands for. */
  lemma ResolveSame(env: Env, sym: Sym)
    ensures Resolve(env, sym).Some? ==> Address(env, Resolve(env, sym).value) == Address(env, sym)
    ensures Resolve(env, sym).None? ==> Address(env, sym).None?
  {
  }

  /** Two symbol tables with the same meaning. */
  ghost predicate SameMeaning(env: Env, a: seq<Sym>, b: seq<Sym>)
  {
    |a| == |b| && forall i :: 0 <= i < |a| ==> Address(env, a[i]) == Address(env, b[i])
  }

  // ----- One relocation

  /** The relocation can be done. */
  predicate Doable(env: Env, stab: seq<Sym>, r: Rel)
  {
    r.sym < |stab| && r.kind != Unsupported && Address(env, stab[r.sym]).Some?
  }

  datatype Outcome =
    | Done
    | Failed  // elf_relocate returns an error
    | Stray   // the code goes on outside a table or the module

  /** The relocation names no symbol of its table, or a symbol of no section. */
  predicate Lost(env: Env, stab: seq<Sym>, r: Rel)
  {
    r.sym >= |stab| || (stab[r.sym].index.In? && stab[r.sym].index.section >= |env.sections|)
  }

  /** How one relocation of a module of `n` bytes ends. */
  function OneOutcome(env: Env, stab: seq<Sym>, r: Rel, n: nat): Outcome
  {
    if Lost(env, stab, r) then Stray
    else if !Doable(env, stab, r) then Failed
    else if Stores(r.kind) && r.place + 4 > n then Stray
    else Done
  }

  /** A relocation with the address of its symbol. */
  datatype Fix = Fix(place: nat, kind: Kind, addend: Option<int>, s: nat)

  function FixOf(env: Env, stab: seq<Sym>, r: Rel): Fix
    requires Doable(env, stab, r)
  {
    Fix(r.place, r.kind, r.addend, Address(env, stab[r.sym]).value)
  }

  predicate Stores(k: Kind) { k in {Abs32, Pc32, GlobDat, JmpSlot} }

  /** The word a relocation puts at its place, for an image and the address of the module: S + A, S + A - P or
      S. */
  function Word(image: seq<Byte>, r: Fix, base: nat): (w: nat)
    requires r.place + 4 <= |image|
    ensures w < WORD
  {
    var a := if r.addend.Some? then r.addend.value else U32(image, r.place);
    match r.kind
    case Abs32 => Mod32(r.s + a)
    case Pc32 => Mod32(r.s + a - (base + r.place))
    case GlobDat => Mod32(r.s)
    case JmpSlot => Mod32(r.s)
    case _ => Mod32(U32(image, r.place))
  }

  /** What the relocation writes, if anything, is inside a module of `n` bytes. */
  predicate Fits(n: nat, r: Fix) { Stores(r.kind) ==> r.place + 4 <= n }

  /** The image after one relocation. */
  function Apply(base: nat, r: Fix, image: seq<Byte>): (m: seq<Byte>)
    requires Fits(|image|, r)
    ensures |m| == |image|
  {
    if Stores(r.kind) then Splice(image, r.place, Bytes32(Word(image, r, base))) else image
  }

  ghost predicate AllFit(rs: seq<Fix>, n: nat)
  {
    forall i :: 0 <= i < |rs| ==> Fits(n, rs[i])
  }

  /** One after another. */
  function ApplyAll(base: nat, rs: seq<Fix>, image: seq<Byte>): (m: seq<Byte>)
    requires AllFit(rs, |image|)
    ensures |m| == |image|
  {
    if rs == [] then image else (assert Fits(|image|, rs[0]); ApplyAll(base, rs[1..], Apply(base, rs[0], image)))
  }

  lemma {:induction false} ApplyMore(base: nat, a: seq<Fix>, b: seq<Fix>, image: seq<Byte>)
    requires AllFit(a + b, |image|)
    ensures AllFit(a, |image|) && AllFit(b, |image|)
    ensures ApplyAll(base, a + b, image) == ApplyAll(base, b, ApplyAll(base, a, image))
  {
    assert forall i :: 0 <= i < |a| ==> (a + b)[i] == a[i];
    assert forall i :: 0 <= i < |b| ==> (a + b)[|a| + i] == b[i];
    if a == [] {
      assert a + b == b;
    } else {
      assert (a + b)[1..] == a[1..] + b;
      ApplyMore(base, a[1..], b, Apply(base, a[0], image));
    }
  }

  // ----- All at once

  /** The relocation writes the byte at `x`. */
  predicate Covers(r: Fix, x: nat) { Stores(r.kind) && r.place <= x < r.place + 4 }

  ghost predicate Apart(rs: seq<Fix>)
  {
    forall i, j :: 0 <= i < j < |rs| && Stores(rs[i].kind) && Stores(rs[j].kind) ==>
      rs[i].place + 4 <= rs[j].place || rs[j].place + 4 <= rs[i].place
  }

  /** `m` is the image with every relocation computed from the image as loaded and put at its place, and
      nothing else changed. */
  ghost predicate AtOnce(base: nat, rs: seq<Fix>, image: seq<Byte>, m: seq<Byte>)
    requires AllFit(rs, |image|)
  {
    && |m| == |image|
    && (forall i :: 0 <= i < |rs| && Stores(rs[i].kind) ==> PlacedWord(base, rs[i], image, m))
    && (forall x :: 0 <= x < |image| && (forall i :: 0 <= i < |rs| ==> !Covers(rs[i], x)) ==> m[x] == image[x])
  }

  ghost predicate PlacedWord(base: nat, r: Fix, image: seq<Byte>, m: seq<Byte>)
    requires r.place + 4 <= |image| == |m|
  {
    m[r.place..r.place + 4] == Bytes32(Word(image, r, base))
  }

  /** A relocation elsewhere sees the same word. */
  lemma WordFrame(image: seq<Byte>, m: seq<Byte>, r: Fix, base: nat)
    requires |m| == |image| && r.place + 4 <= |image|
    requires forall x :: r.place <= x < r.place + 4 ==> m[x] == image[x]
    ensures Word(m, r, base) == Word(image, r, base)
  {
  }

  lemma ApplyFrame(base: nat, r: Fix, image: seq<Byte>)
    requires Fits(|image|, r)
    ensures var m := Apply(base, r, image);
            && (forall x :: 0 <= x < |image| && !Covers(r, x) ==> m[x] == image[x])
            && (Stores(r.kind) ==> PlacedWord(base, r, image, m))
  {
    hide Word;
    hide Bytes32;
  }

  /** With places apart, relocations done one after another are relocations done at once. */
  lemma {:induction false} SequentialIsAtOnce(base: nat, rs: seq<Fix>, image: seq<Byte>)
    requires AllFit(rs, |image|) && Apart(rs)
    ensures AtOnce(base, rs, image, ApplyAll(base, rs, image))
  {
    if rs != [] {
      var r, rest := rs[0], rs[1..];
      var m1 := Apply(base, r, image);
      ApplyFrame(base, r, image);
      assert AllFit(rest, |m1|) && Apart(rest);
      SequentialIsAtOnce(base, rest, m1);
      var m := ApplyAll(base, rest, m1);
      hide Apply;
      FirstStays(base, rs, image, m1, m);
      OthersSame(base, rs, image, m1, m);
      Untouched(base, rs, image, m1, m);
    }
  }

  lemma FirstStays(base: nat, rs: seq<Fix>, image: seq<Byte>, m1: seq<Byte>, m: seq<Byte>)
    requires rs != [] && |m1| == |image| && AllFit(rs, |image|) && Apart(rs)
    requires AllFit(rs[1..], |m1|) && AtOnce(base, rs[1..], m1, m)
    requires Stores(rs[0].kind) ==> PlacedWord(base, rs[0], image, m1)
    ensures Stores(rs[0].kind) ==> PlacedWord(base, rs[0], image, m)
  {
    var r, rest := rs[0], rs[1..];
    hide Word;
    hide Bytes32;
    if Stores(r.kind) {
      forall x | r.place <= x < r.place + 4 ensures m[x] == m1[x] {
        forall i | 0 <= i < |rest| ensures !Covers(rest[i], x) { assert rest[i] == rs[i + 1]; }
      }
      assert m[r.place..r.place + 4] == m1[r.place..r.place + 4];
    }
  }

  lemma OthersSame(base: nat, rs: seq<Fix>, image: seq<Byte>, m1: seq<Byte>, m: seq<Byte>)
    requires rs != [] && |m1| == |image| && AllFit(rs, |image|) && Apart(rs)
    requires AllFit(rs[1..], |m1|) && AtOnce(base, rs[1..], m1, m)
    requires forall x :: 0 <= x < |image| && !Covers(rs[0], x) ==> m1[x] == image[x]
    ensures forall i :: 1 <= i < |rs| && Stores(rs[i].kind) ==> PlacedWord(base, rs[i], image, m)
  {
    forall i | 1 <= i < |rs| && Stores(rs[i].kind) ensures PlacedWord(base, rs[i], image, m) {
      var r := rs[1..][i - 1];
      assert r == rs[i] && PlacedWord(base, r, m1, m);
      assert forall x :: r.place <= x < r.place + 4 ==> !Covers(rs[0], x);
      WordFrame(image, m1, r, base);
    }
  }

  lemma Untouched(base: nat, rs: seq<Fix>, image: seq<Byte>, m1: seq<Byte>, m: seq<Byte>)
    requires rs != [] && |m1| == |image| && AllFit(rs[1..], |m1|) && AtOnce(base, rs[1..], m1, m)
    requires forall x :: 0 <= x < |image| && !Covers(rs[0], x) ==> m1[x] == image[x]
    ensures forall x :: 0 <= x < |image| && (forall i :: 0 <= i < |rs| ==> !Covers(rs[i], x)) ==> m[x] == image[x]
  {
    forall x | 0 <= x < |image| && (forall i :: 0 <= i < |rs| ==> !Covers(rs[i], x)) ensures m[x] == image[x] {
      forall i | 0 <= i < |rs[1..]| ensures !Covers(rs[1..][i], x) { assert rs[1..][i] == rs[i + 1]; }
      assert !Covers(rs[0], x);
    }
  }

  /** There is only one such image. */
  lemma AtOnceUnique(base: nat, rs: seq<Fix>, image: seq<Byte>, m: seq<Byte>, m': seq<Byte>)
    requires AllFit(rs, |image|)
    requires AtOnce(base, rs, image, m) && AtOnce(base, rs, image, m')
    ensures m == m'
  {
    forall x | 0 <= x < |image| ensures m[x] == m'[x] {
      if i :| 0 <= i < |rs| && Covers(rs[i], x) {
        var p := rs[i].place;
        assert PlacedWord(base, rs[i], image, m) && PlacedWord(base, rs[i], image, m');
        assert m[x] == m[p..p + 4][x - p] && m'[x] == m'[p..p + 4][x - p];
      }
    }
  }

  /** The order does not matter. */
  lemma AnyOrder(base: nat, rs: seq<Fix>, qs: seq<Fix>, image: seq<Byte>)
    requires AllFit(rs, |image|) && Apart(rs) && multiset(rs) == multiset(qs)
    ensures AllFit(qs, |image|) && ApplyAll(base, rs, image) == ApplyAll(base, qs, image)
  {
    SameElements(rs, qs);
    ApartReordered(rs, qs);
    forall i | 0 <= i < |qs| ensures Fits(|image|, qs[i]) { assert qs[i] in rs; }
    SequentialIsAtOnce(base, rs, image);
    SequentialIsAtOnce(base, qs, image);
    var m := ApplyAll(base, qs, image);
    assert AtOnce(base, rs, image, m) by { Reordered(base, rs, qs, image, m); }
    AtOnceUnique(base, rs, image, ApplyAll(base, rs, image), m);
  }

  lemma ApartReordered(rs: seq<Fix>, qs: seq<Fix>)
    requires Apart(rs) && multiset(rs) == multiset(qs)
    ensures Apart(qs)
  {
    SameElements(rs, qs);
    forall i, j | 0 <= i < j < |qs| && Stores(qs[i].kind) && Stores(qs[j].kind)
      ensures qs[i].place + 4 <= qs[j].place || qs[j].place + 4 <= qs[i].place
    {
      if qs[i] == qs[j] {
        TwiceIn(qs, i, j);
        var x, y := TwoOf(rs, qs[i]);
      } else {
        assert qs[i] in rs && qs[j] in rs;
      }
    }
  }

  lemma TwiceIn(q: seq<Fix>, i: nat, j: nat)
    requires i < j < |q| && q[i] == q[j]
    ensures multiset(q)[q[i]] >= 2
  {
    assert q == q[..j] + [q[j]] + q[j + 1..];
    assert q[i] == q[..j][i] && q[i] in q[..j];
  }

  lemma {:induction false} TwoOf(q: seq<Fix>, r: Fix) returns (i: nat, j: nat)
    requires multiset(q)[r] >= 2
    ensures i < j < |q| && q[i] == r && q[j] == r
  {
    assert q == [q[0]] + q[1..];
    if q[0] == r {
      assert multiset(q[1..])[r] >= 1;
      assert r in q[1..];
      i := 0;
      j :| 0 < j < |q| && q[j] == r;
    } else {
      i, j := TwoOf(q[1..], r);
      i, j := i + 1, j + 1;
    }
  }

  lemma SameElements(rs: seq<Fix>, qs: seq<Fix>)
    requires multiset(rs) == multiset(qs)
    ensures forall r :: r in rs <==> r in qs
  {
    forall r ensures r in rs <==> r in qs { assert r in multiset(rs) <==> r in multiset(qs); }
  }

  lemma Reordered(base: nat, rs: seq<Fix>, qs: seq<Fix>, image: seq<Byte>, m: seq<Byte>)
    requires AllFit(rs, |image|) && AllFit(qs, |image|) && forall r :: r in rs <==> r in qs
    requires AtOnce(base, qs, image, m)
    ensures AtOnce(base, rs, image, m)
  {
    forall i | 0 <= i < |rs| && Stores(rs[i].kind) ensures PlacedWord(base, rs[i], image, m) {
      assert rs[i] in qs;
      var j :| 0 <= j < |qs| && qs[j] == rs[i];
    }
    forall x | 0 <= x < |image| && (forall i :: 0 <= i < |rs| ==> !Covers(rs[i], x)) ensures m[x] == image[x] {
      forall j | 0 <= j < |qs| ensures !Covers(qs[j], x) { assert qs[j] in rs; }
    }
  }

  // ----- What the words mean

  function AddendOf(r: Rel, image: seq<Byte>): int
    requires r.place + 4 <= |image|
  {
    if r.addend.Some? then r.addend.value else U32(image, r.place)
  }

  /** The word at the place of a relocation is right for an image that was `before` as loaded: the addend and the
      symbol's address are what it holds, or what the place is from; for the last two types it is the address itself. */
  ghost predicate WordRight(env: Env, stab: seq<Sym>, r: Rel, before: seq<Byte>, after: seq<Byte>)
  {
    && Doable(env, stab, r) && r.place + 4 <= |before| == |after|
    && var s, a, w := Address(env, stab[r.sym]).value, AddendOf(r, before), U32(after, r.place);
       match r.kind
       case Abs32 => Mod32(w - a) == Mod32(s)
       case Pc32 => Mod32(env.base + r.place + w) == Mod32(s + a)
       case GlobDat => Mod32(w) == Mod32(s)
       case JmpSlot => Mod32(w) == Mod32(s)
       case _ => false
  }

  lemma PlacedRight(env: Env, stab: seq<Sym>, r: Rel, before: seq<Byte>, after: seq<Byte>)
    requires Doable(env, stab, r) && Stores(r.kind) && r.place + 4 <= |before| == |after|
    requires PlacedWord(env.base, FixOf(env, stab, r), before, after)
    ensures WordRight(env, stab, r, before, after)
  {
    hide Mod32;
    hide Bytes32;
    hide U32;
    hide Address;
    ReadBack32(after, r.place, Word(before, FixOf(env, stab, r), env.base));
    var s, a, at := Address(env, stab[r.sym]).value, AddendOf(r, before), env.base + r.place;
    ModShifted(s + a, -a);
    ModShifted(s + a - at, at);
    ModShifted(s, 0);
    assert s + a + -a == s && s + a - at + at == s + a && s + 0 == s;
  }

  lemma ModShifted(x: int, z: int)
    ensures Mod32(Mod32(x) + z) == Mod32(x + z)
  {
    SameShifted(Mod32(x), x, z);
  }

  lemma AppliedRight(env: Env, stab: seq<Sym>, r: Rel, image: seq<Byte>)
    requires Doable(env, stab, r) && Stores(r.kind) && Fits(|image|, FixOf(env, stab, r))
    ensures WordRight(env, stab, r, image, Apply(env.base, FixOf(env, stab, r), image))
  {
    ApplyFrame(env.base, FixOf(env, stab, r), image);
    PlacedRight(env, stab, r, image, Apply(env.base, FixOf(env, stab, r), image));
  }

  lemma WordBound(image: seq<Byte>, at: nat)
    requires at + 4 <= |image|
    ensures U32(image, at) < WORD && Mod32(U32(image, at)) == U32(image, at)
  {
  }

  lemma SameShifted(x: int, y: int, z: int)
    requires Mod32(x) == Mod32(y)
    ensures Mod32(x + z) == Mod32(y + z)
  {
    var q := x / WORD - y / WORD;
    assert x == y + WORD * q;
    assert (y + z + WORD * q) % WORD == (y + z) % WORD;
  }

  /** Numbers that differ by `k` and `j` from the same one. */
  lemma Differ(w: int, w': int, a: int, s: int, k: int)
    requires Mod32(w + a) == Mod32(s) && Mod32(w' + a) == Mod32(s + k)
    ensures Mod32(w') == Mod32(w + k)
  {
    SameShifted(w + a, s, k - a);
    SameShifted(w' + a, s + k, -a);
    assert w + a + (k - a) == w + k && s + (k - a) == s + k + -a && w' + a + -a == w';
  }

  lemma AddressMoved(env: Env, k: int, sym: Sym)
    requires env.base + k >= 0 && Address(env, sym).Some?
    ensures Address(env.(base := env.base + k), sym).Some?
    ensures Mod32(Address(env.(base := env.base + k), sym).value) ==
            Mod32(Address(env, sym).value + if sym.index.In? then k else 0)
  {
    if sym.index.In? {
      var x := sym.value + env.sections[sym.index.section].offset - EHDR + env.base;
      SameShifted(Mod32(x), x, k);
    }
  }

  /** A module loaded `k` bytes further on: words that hold addresses in the module grow by `k`, those that hold how
      far an address of the kernel is from the module shrink by it, and the others stay. */
  lemma Moved(env: Env, k: int, stab: seq<Sym>, r: Rel, before: seq<Byte>, m: seq<Byte>, m': seq<Byte>)
    requires env.base + k >= 0
    requires WordRight(env, stab, r, before, m) && WordRight(env.(base := env.base + k), stab, r, before, m')
    ensures var w, w', inside := U32(m, r.place), U32(m', r.place), stab[r.sym].index.In?;
            w' == if r.kind == Pc32 then (if inside then w else Mod32(w - k)) else if inside then Mod32(w + k) else w
  {
    hide U32;
    hide Mod32;
    hide Address;
    AddressMoved(env, k, stab[r.sym]);
    WordBound(m, r.place);
    WordBound(m', r.place);
    var w, w', inside := U32(m, r.place), U32(m', r.place), stab[r.sym].index.In?;
    var s, s' := Address(env, stab[r.sym]).value, Address(env.(base := env.base + k), stab[r.sym]).value;
    var d := if inside then k else 0;
    match r.kind
    case Abs32 => Differ(w, w', -AddendOf(r, before), s, d);
    case Pc32 =>
      var a, b := AddendOf(r, before), env.base + r.place;
      SameShifted(s', s + d, a);
      SameShifted(b + k + w', s' + a, -k);
      assert s + d + a == s + a + d && b + k + w' + -k == w' + b && s' + a + -k == s' + (a - k);
      SameShifted(s', s + d, a - k);
      assert s + d + (a - k) == s + a + (d - k);
      Differ(w, w', b, s + a, d - k);
    case GlobDat => Differ(w, w', 0, s, d);
    case JmpSlot => Differ(w, w', 0, s, d);
  }
}
