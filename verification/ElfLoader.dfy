/** Sizing, filling and relocating a module (kernel/src/elf32.c, elf_load_module). */
module ElfLoader {
  import opened BlockDevice
  import opened LittleEndian
  import opened ElfRelocation
  import HeapAlloc
  import HeapLayout
  import HeapRuns

  // ----- The length of the module

  /** Where a section ends in the module, in 32-bit arithmetic. */
  function End(s: Section): nat
  {
    Mod32(s.offset + s.size - EHDR)
  }

  /** The largest end of the sections to be loaded, among the first `n`. */
  function Length(sections: seq<Section>, n: nat): nat
    requires n <= |sections|
  {
    if n == 0 then 0
    else
      var l := Length(sections, n - 1);
      if sections[n - 1].alloc && End(sections[n - 1]) > l then End(sections[n - 1]) else l
  }

  /** A section to be loaded that starts after the header is inside the module exactly when its end fits 32 bits: a
      longer one, which only a section without bits can be, wraps around. */
  lemma SectionsInside(sections: seq<Section>, n: nat, k: nat)
    requires k < n <= |sections| && sections[k].alloc && EHDR <= sections[k].offset
    ensures sections[k].offset - EHDR + sections[k].size <= Length(sections, n) <==>
            sections[k].offset - EHDR + sections[k].size < WORD
  {
    EndsInside(sections, n, k);
    LengthBelow(sections, n);
  }

  lemma {:induction false} EndsInside(sections: seq<Section>, n: nat, k: nat)
    requires k < n <= |sections| && sections[k].alloc
    ensures End(sections[k]) <= Length(sections, n)
  {
    if k < n - 1 { EndsInside(sections, n - 1, k); }
  }

  lemma {:induction false} LengthBelow(sections: seq<Section>, n: nat)
    requires n <= |sections|
    ensures Length(sections, n) < WORD
  {
    if n > 0 { LengthBelow(sections, n - 1); }
  }

  /** A .bss of nearly 4 GiB gives a module of 76 bytes, which it does not fit. */
  lemma LengthTooShort(file: seq<Byte>)
    ensures var s := Section(true, true, 256, 0xFFFF_FF80); Length([s], 1) == 76 && !Inside(s, file, Length([s], 1))
  {
    assert Length([Section(true, true, 256, 0xFFFF_FF80)], 0) == 0;
  }

  /** The module is no longer than needed exactly when no section to be loaded ends inside the header: such an
      end wraps around to nearly 4 GiB. */
  lemma {:induction false} LengthLeast(sections: seq<Section>, n: nat, bound: nat)
    requires n <= |sections| && bound < WORD - EHDR
    requires forall k :: 0 <= k < n && sections[k].alloc ==> sections[k].offset + sections[k].size <= EHDR + bound
    ensures Length(sections, n) <= bound <==>
            forall k :: 0 <= k < n && sections[k].alloc ==> EHDR <= sections[k].offset + sections[k].size
  {
    if n > 0 {
      LengthLeast(sections, n - 1, bound);
      var s := sections[n - 1];
      if s.offset + s.size < EHDR { assert End(s) == s.offset + s.size - EHDR + WORD; }
    }
  }

  /** One section to be loaded that ends inside the header makes the module nearly 4 GiB long. */
  lemma LengthWraps(s: Section)
    requires s.alloc && s.offset + s.size < EHDR
    ensures Length([s], 1) == WORD - EHDR + s.offset + s.size
  {
    assert Length([s], 0) == 0;
  }

  /** And if it ends in the last 24 bytes of the header, the kmalloc of that length as the first request tears the
      heap. */
  lemma LengthTears(s: Section, start: int, max: int)
    requires s.alloc && EHDR - HeapLayout.OVERHEAD <= s.offset + s.size < EHDR
    requires 0 <= start && start + HeapLayout.PAGE <= max < HeapLayout.WORD
    ensures Length([s], 1) < HeapLayout.WORD
    ensures HeapAlloc.Locate(HeapRuns.BootedHeap(start, max), Length([s], 1), false) == HeapAlloc.Wrong(HeapAlloc.Torn)
  {
    LengthWraps(s);
    HeapRuns.WrappedRequest(start, max, Length([s], 1));
  }

  // ----- The contents of the module

  /** How much of a section is written: all of it if it is cleared, else as much as the file has. */
  function Span(s: Section, file: seq<Byte>): nat
  {
    if s.nobits || s.offset + s.size <= |file| then s.size else if s.offset <= |file| then |file| - s.offset else 0
  }

  /** Loading the section writes no byte outside a module of `n` bytes. */
  predicate Inside(s: Section, file: seq<Byte>, n: nat)
  {
    Span(s, file) == 0 || (EHDR <= s.offset && s.offset - EHDR + Span(s, file) <= n)
  }

  /** The bytes that are written: zeros, or those of the file. */
  function Content(s: Section, file: seq<Byte>): (r: seq<Byte>)
    ensures |r| == Span(s, file)
  {
    if s.nobits then seq(s.size, i => 0)
    else if s.offset <= |file| then file[s.offset..s.offset + Span(s, file)]
    else []
  }

  /** Loading the section writes the byte at `x` of the module. */
  ghost predicate Writes(s: Section, file: seq<Byte>, x: nat)
  {
    s.alloc && s.offset <= x + EHDR < s.offset + Span(s, file)
  }

  /** The byte a section should have at `x`: zero, or that of the file at the same place. */
  ghost function Wanted(s: Section, file: seq<Byte>, x: nat): Byte
    requires Writes(s, file, x)
  {
    if s.nobits then 0 else file[x + EHDR]
  }

  /** The byte at `x` after loading the first `n` sections: that of the last one there. */
  ghost function ByteAt(sections: seq<Section>, file: seq<Byte>, image: seq<Byte>, n: nat, x: nat): Byte
    requires n <= |sections| && x < |image|
  {
    if n == 0 then image[x]
    else if Writes(sections[n - 1], file, x) then Wanted(sections[n - 1], file, x)
    else ByteAt(sections, file, image, n - 1, x)
  }

  /** A byte of a section is in the module as it should be exactly when the last section there is of the same kind,
      cleared or from the file, or the byte of the file is zero anyway: sections from the file may overlap. */
  lemma {:induction false} SectionIntact(sections: seq<Section>, file: seq<Byte>, image: seq<Byte>, n: nat, k: nat, l: nat, x: nat)
    requires k < n <= |sections| && l < n && x < |image|
    requires Writes(sections[k], file, x) && Writes(sections[l], file, x)
    requires forall j :: l < j < n ==> !Writes(sections[j], file, x)
    ensures ByteAt(sections, file, image, n, x) == Wanted(sections[k], file, x) <==>
            sections[l].nobits == sections[k].nobits || file[x + EHDR] == 0
  {
    LastThere(sections, file, image, n, l, x);
  }

  lemma {:induction false} LastThere(sections: seq<Section>, file: seq<Byte>, image: seq<Byte>, n: nat, l: nat, x: nat)
    requires l < n <= |sections| && x < |image| && Writes(sections[l], file, x)
    requires forall j :: l < j < n ==> !Writes(sections[j], file, x)
    ensures ByteAt(sections, file, image, n, x) == Wanted(sections[l], file, x)
  {
    if l < n - 1 { LastThere(sections, file, image, n - 1, l, x); }
  }

  /** Two sections of different kinds meet at a byte that is not zero in the file. */
  ghost predicate Clash(sections: seq<Section>, file: seq<Byte>, k: nat, l: nat, x: nat)
    requires k < |sections| && l < |sections|
  {
    && Writes(sections[k], file, x) && Writes(sections[l], file, x)
    && sections[k].nobits && !sections[l].nobits && file[x + EHDR] != 0
  }

  /** The byte at `x`, if section `k` has one there, is as it should be. */
  ghost predicate Intact(sections: seq<Section>, file: seq<Byte>, image: seq<Byte>, k: nat, x: nat)
    requires k < |sections| && x < |image|
  {
    Writes(sections[k], file, x) ==> ByteAt(sections, file, image, |sections|, x) == Wanted(sections[k], file, x)
  }

  /** A module has every byte of every section as it should be exactly when no section to be cleared meets one from
      the file at a byte that is not zero. */
  lemma ModuleIntact(sections: seq<Section>, file: seq<Byte>, image: seq<Byte>)
    ensures (forall k: nat, x: nat :: k < |sections| && x < |image| ==> Intact(sections, file, image, k, x)) <==>
            forall k: nat, l: nat, x: nat :: k < |sections| && l < |sections| && x < |image| ==>
              !Clash(sections, file, k, l, x)
  {
    if k: nat, x: nat :| k < |sections| && x < |image| && !Intact(sections, file, image, k, x) {
      var l := LastWriter(sections, file, |sections|, k, x);
      SectionIntact(sections, file, image, |sections|, k, l, x);
      assert Clash(sections, file, k, l, x) || Clash(sections, file, l, k, x);
    }
    if k: nat, l: nat, x: nat :| k < |sections| && l < |sections| && x < |image| && Clash(sections, file, k, l, x) {
      assert !Intact(sections, file, image, k, x) || !Intact(sections, file, image, l, x);
    }
  }

  lemma {:induction false} LastWriter(sections: seq<Section>, file: seq<Byte>, n: nat, k: nat, x: nat) returns (l: nat)
    requires k < n <= |sections| && Writes(sections[k], file, x)
    ensures l < n && Writes(sections[l], file, x) && forall j :: l < j < n ==> !Writes(sections[j], file, x)
  {
    if Writes(sections[n - 1], file, x) {
      l := n - 1;
    } else {
      l := LastWriter(sections, file, n - 1, k, x);
    }
  }

  /** A .bss at the file offset of the next section, as linkers leave it: loaded first it is not cleared, loaded last
      it clears the other. */
  lemma BssOverlap(file: seq<Byte>, image: seq<Byte>, offset: nat, size: nat)
    requires EHDR <= offset < |file| && file[offset] != 0 && size > 0 && offset - EHDR < |image|
    ensures var bss, data := Section(true, true, offset, size), Section(true, false, offset, size);
            var x := offset - EHDR;
            && Writes(bss, file, x) && Writes(data, file, x)
            && ByteAt([bss, data], file, image, 2, x) != Wanted(bss, file, x)
            && ByteAt([data, bss], file, image, 2, x) != Wanted(data, file, x)
  {
    var bss, data := Section(true, true, offset, size), Section(true, false, offset, size);
    SectionIntact([bss, data], file, image, 2, 0, 1, offset - EHDR);
    SectionIntact([data, bss], file, image, 2, 0, 1, offset - EHDR);
  }

  /** One relocation table with the symbol table it refers to. */
  datatype Table = Table(syms: seq<Sym>, rels: seq<Rel>)

  ghost predicate AllDoable(env: Env, syms: seq<Sym>, rels: seq<Rel>)
  {
    forall i :: 0 <= i < |rels| ==> Doable(env, syms, rels[i])
  }

  ghost function Fixes(env: Env, syms: seq<Sym>, rels: seq<Rel>): (r: seq<Fix>)
    requires AllDoable(env, syms, rels)
    ensures |r| == |rels| && forall i :: 0 <= i < |rels| ==> r[i] == FixOf(env, syms, rels[i])
  {
    seq(|rels|, i requires 0 <= i < |rels| => FixOf(env, syms, rels[i]))
  }

  /** All relocations of some tables. */
  ghost function AllFixes(env: Env, tables: seq<Table>): seq<Fix>
    requires forall k :: 0 <= k < |tables| ==> AllDoable(env, tables[k].syms, tables[k].rels)
  {
    if tables == [] then []
    else AllFixes(env, tables[..|tables| - 1]) + Fixes(env, tables[|tables| - 1].syms, tables[|tables| - 1].rels)
  }

  /** How the relocations of a table end: as the first one that is not done. */
  ghost function TableOutcome(env: Env, syms: seq<Sym>, rels: seq<Rel>, n: nat): Outcome
  {
    if rels == [] then Done
    else
      var o := OneOutcome(env, syms, rels[0], n);
      if o == Done then TableOutcome(env, syms, rels[1..], n) else o
  }

  /** And those of all tables. */
  ghost function AllOutcome(env: Env, tables: seq<Table>, n: nat): Outcome
  {
    if tables == [] then Done
    else
      var o := TableOutcome(env, tables[0].syms, tables[0].rels, n);
      if o == Done then AllOutcome(env, tables[1..], n) else o
  }

  /** Relocation `k` is the first that is not done. */
  ghost predicate FirstNotDone(env: Env, syms: seq<Sym>, rels: seq<Rel>, n: nat, k: nat)
  {
    && k < |rels| && OneOutcome(env, syms, rels[k], n) != Done
    && forall i :: 0 <= i < k ==> OneOutcome(env, syms, rels[i], n) == Done
  }

  /** A table is done exactly when every relocation of it can be done and writes inside the module; the code goes
      astray exactly when the first that is not so does. */
  lemma {:induction false} TableEnds(env: Env, syms: seq<Sym>, rels: seq<Rel>, n: nat)
    ensures var o := TableOutcome(env, syms, rels, n);
            && (o == Done <==> forall i :: 0 <= i < |rels| ==> OneOutcome(env, syms, rels[i], n) == Done)
            && (o != Done ==> exists k: nat :: FirstNotDone(env, syms, rels, n, k) && OneOutcome(env, syms, rels[k], n) == o)
  {
    hide OneOutcome;
    if rels != [] {
      var rest := rels[1..];
      assert forall i :: 0 <= i < |rest| ==> rest[i] == rels[i + 1];
      TableEnds(env, syms, rest, n);
      if OneOutcome(env, syms, rels[0], n) != Done {
        assert FirstNotDone(env, syms, rels, n, 0);
      } else if TableOutcome(env, syms, rest, n) != Done {
        var k: nat :| FirstNotDone(env, syms, rest, n, k);
        assert FirstNotDone(env, syms, rels, n, k + 1);
      } else {
        assert forall i :: 0 < i < |rels| ==> rels[i] == rest[i - 1];
      }
    }
  }

  /** All tables are done exactly when every relocation of every table is. */
  lemma {:induction false} AllEnds(env: Env, tables: seq<Table>, n: nat)
    ensures AllOutcome(env, tables, n) == Done <==>
            forall k, i :: 0 <= k < |tables| && 0 <= i < |tables[k].rels| ==>
              OneOutcome(env, tables[k].syms, tables[k].rels[i], n) == Done
  {
    hide OneOutcome;
    hide TableOutcome;
    if tables != [] {
      var rest := tables[1..];
      TableEnds(env, tables[0].syms, tables[0].rels, n);
      AllEnds(env, rest, n);
      assert forall k :: 0 <= k < |rest| ==> rest[k] == tables[k + 1];
      assert forall k :: 0 < k < |tables| ==> tables[k] == rest[k - 1];
    }
  }

  /** A relocation of a section that is not loaded and lies behind all that are, as debugging information does: it is
      applied all the same, past the end of the module. */
  lemma UnloadedTarget(env: Env, syms: seq<Sym>, r: Rel, target: nat, offset: nat)
    requires target < |env.sections| && !env.sections[target].alloc && EHDR <= env.sections[target].offset < WORD
    requires forall k :: 0 <= k < |env.sections| && env.sections[k].alloc ==>
               EHDR <= env.sections[k].offset + env.sections[k].size <= env.sections[target].offset
    requires r.place == env.sections[target].offset - EHDR + offset && Doable(env, syms, r) && Stores(r.kind)
    ensures OneOutcome(env, syms, r, Length(env.sections, |env.sections|)) == Stray
  {
    LengthLeast(env.sections, |env.sections|, env.sections[target].offset - EHDR);
  }

  // ----- The relocated module

  /** Every relocated word of a module is right. */
  ghost predicate AllRight(env: Env, tables: seq<Table>, before: seq<Byte>, after: seq<Byte>)
  {
    forall k, i :: 0 <= k < |tables| && 0 <= i < |tables[k].rels| && Stores(tables[k].rels[i].kind) ==>
      WordRight(env, tables[k].syms, tables[k].rels[i], before, after)
  }

  lemma {:induction false} FixIn(env: Env, tables: seq<Table>, k: nat, i: nat)
    requires forall j :: 0 <= j < |tables| ==> AllDoable(env, tables[j].syms, tables[j].rels)
    requires k < |tables| && i < |tables[k].rels|
    ensures Doable(env, tables[k].syms, tables[k].rels[i]) && FixOf(env, tables[k].syms, tables[k].rels[i]) in AllFixes(env, tables)
  {
    var last := |tables| - 1;
    if k < last {
      FixIn(env, tables[..last], k, i);
    } else {
      assert Fixes(env, tables[k].syms, tables[k].rels)[i] == FixOf(env, tables[k].syms, tables[k].rels[i]);
    }
  }

  lemma AtOnceRight(env: Env, tables: seq<Table>, before: seq<Byte>, after: seq<Byte>)
    requires forall k :: 0 <= k < |tables| ==> AllDoable(env, tables[k].syms, tables[k].rels)
    requires AllFit(AllFixes(env, tables), |before|) && AtOnce(env.base, AllFixes(env, tables), before, after)
    ensures AllRight(env, tables, before, after)
  {
    var fs := AllFixes(env, tables);
    forall k, i | 0 <= k < |tables| && 0 <= i < |tables[k].rels| && Stores(tables[k].rels[i].kind)
      ensures WordRight(env, tables[k].syms, tables[k].rels[i], before, after)
    {
      var r := tables[k].rels[i];
      FixIn(env, tables, k, i);
      hide AllFixes;
      hide WordRight;
      var j :| 0 <= j < |fs| && fs[j] == FixOf(env, tables[k].syms, r);
      assert Fits(|before|, fs[j]);
      PlacedRight(env, tables[k].syms, r, before, after);
    }
  }

  /** What a symbol of a section stands for: where in memory the loader has put the byte of the section the symbol
      names, and that byte is there as it should be if no section is loaded over it. */
  lemma SymbolLoaded(env: Env, sym: Sym, file: seq<Byte>, image: seq<Byte>)
    requires sym.index.In? && sym.index.section < |env.sections|
    requires var sec := env.sections[sym.index.section];
             sec.alloc && EHDR <= sec.offset && sym.value < Span(sec, file) && sec.offset - EHDR + Span(sec, file) <= |image|
    ensures Address(env, sym).Some?
    ensures var k := sym.index.section;
            var sec, x := env.sections[k], env.sections[k].offset - EHDR + sym.value;
            && Address(env, sym).value == Mod32(env.base + x) && Writes(sec, file, x)
            && Wanted(sec, file, x) == Content(sec, file)[sym.value]
            && ((forall j :: k < j < |env.sections| ==> !Writes(env.sections[j], file, x)) ==>
                  ByteAt(env.sections, file, image, |env.sections|, x) == Content(sec, file)[sym.value])
  {
    var k := sym.index.section;
    var x := env.sections[k].offset - EHDR + sym.value;
    if forall j :: k < j < |env.sections| ==> !Writes(env.sections[j], file, x) {
      LastThere(env.sections, file, image, |env.sections|, k, x);
    }
  }

  class Loader {
    var image: seq<Byte>

    /** The sizing loop. */
    method ModuleLength(sections: seq<Section>) returns (length: nat)
      ensures length == Length(sections, |sections|)
      ensures forall k :: 0 <= k < |sections| && sections[k].alloc && EHDR <= sections[k].offset ==>
                (sections[k].offset - EHDR + sections[k].size <= length <==>
                 sections[k].offset - EHDR + sections[k].size < WORD)
    {
      length := 0;
      for i := 0 to |sections|
        invariant length == Length(sections, i)
      {
        if sections[i].alloc && End(sections[i]) > length {
          length := End(sections[i]);
        }
      }
      forall k | 0 <= k < |sections| && sections[k].alloc && EHDR <= sections[k].offset
        ensures sections[k].offset - EHDR + sections[k].size <= length <==>
                sections[k].offset - EHDR + sections[k].size < WORD
      {
        SectionsInside(sections, |sections|, k);
      }
    }

    /** The loading loop.  It stops where a section would be written outside the module. */
    method LoadSections(sections: seq<Section>, file: seq<Byte>) returns (ok: bool)
      modifies this
      ensures |image| == old(|image|)
      ensures ok <==> forall k :: 0 <= k < |sections| && sections[k].alloc ==> Inside(sections[k], file, |image|)
      ensures ok ==> forall x :: 0 <= x < |image| ==> image[x] == ByteAt(sections, file, old(image), |sections|, x)
    {
      var i := 0;
      while i < |sections|
        invariant 0 <= i <= |sections| && |image| == old(|image|)
        invariant forall k :: 0 <= k < i && sections[k].alloc ==> Inside(sections[k], file, |image|)
        invariant forall x :: 0 <= x < |image| ==> image[x] == ByteAt(sections, file, old(image), i, x)
      {
        var s := sections[i];
        if s.alloc {
          if !Inside(s, file, |image|) {
            return false;
          }
          if Span(s, file) > 0 {
            image := Splice(image, s.offset - EHDR, Content(s, file));
          }
        }
        i := i + 1;
      }
      ok := true;
    }

    /** elf_relocate, with elf_resolve rewriting the symbol. */
    method Relocate(env: Env, syms: seq<Sym>, r: Rel, ghost first: seq<Sym>) returns (o: Outcome, syms': seq<Sym>)
      requires SameMeaning(env, first, syms) && SameSections(first, syms)
      modifies this
      ensures o == OneOutcome(env, first, r, |image|) && |image| == old(|image|)
      ensures o == Done ==> Doable(env, first, r) && Fits(|image|, FixOf(env, first, r))
      ensures o == Done ==> image == Apply(env.base, FixOf(env, first, r), old(image))
      ensures o == Done && Stores(r.kind) ==> WordRight(env, first, r, old(image), image)
      ensures SameMeaning(env, first, syms') && SameSections(first, syms')
    {
      hide WordRight;
      syms' := syms;
      if r.sym >= |syms| {
        return Stray, syms';
      }
      ResolveSame(env, syms[r.sym]);
      assert Address(env, first[r.sym]) == Address(env, syms[r.sym]);
      var sym := Resolve(env, syms[r.sym]);
      if sym.None? {
        return Failed, syms';
      }
      syms' := syms[r.sym := sym.value];
      var s := sym.value.value;
      if sym.value.index != Abs {
        if sym.value.index.section >= |env.sections| {
          return Stray, syms';
        }
        s := Mod32(s + env.sections[sym.value.index.section].offset - EHDR + env.base);
      }
      if Stores(r.kind) && r.place + 4 > |image| {
        return Stray, syms';
      }
      hide Bytes32;
      o := Done;
      match r.kind {
        case CopyIt =>
        case Nothing =>
        case Abs32 =>
          image := Splice(image, r.place, Bytes32(Mod32(s + Addend(r))));
        case Pc32 =>
          image := Splice(image, r.place, Bytes32(Mod32(s + Addend(r) - (env.base + r.place))));
        case GlobDat =>
          image := Splice(image, r.place, Bytes32(Mod32(s)));
        case JmpSlot =>
          image := Splice(image, r.place, Bytes32(Mod32(s)));
        case Unsupported =>
          o := Failed;
      }
      if o == Done && Stores(r.kind) { AppliedRight(env, first, r, old(image)); }
    }

    /** The addend of a relocation, its own or the word at its place. */
    function Addend(r: Rel): int
      requires r.place + 4 <= |image|
      reads this
    {
      if r.addend.Some? then r.addend.value else U32(image, r.place)
    }

    /** The relocations of one table, in order; the symbol table read for it is rewritten on the way. */
    method RelocateTable(env: Env, t: Table) returns (o: Outcome)
      modifies this
      ensures |image| == old(|image|) && o == TableOutcome(env, t.syms, t.rels, |image|)
      ensures o == Done ==>
                && AllDoable(env, t.syms, t.rels) && AllFit(Fixes(env, t.syms, t.rels), |image|)
                && image == ApplyAll(env.base, Fixes(env, t.syms, t.rels), old(image))
    {
      hide Address;
      hide Apply;
      hide OneOutcome;
      hide TableOutcome;
      hide SameSections;
      SameSelf(t.syms);
      var syms := t.syms;
      var r := 0;
      assert t.rels[..0] == [] && t.rels[0..] == t.rels;
      while r < |t.rels|
        invariant 0 <= r <= |t.rels| && |image| == old(|image|)
        invariant SameMeaning(env, t.syms, syms) && SameSections(t.syms, syms)
        invariant AllDoable(env, t.syms, t.rels[..r]) && AllFit(Fixes(env, t.syms, t.rels[..r]), |image|)
        invariant image == ApplyAll(env.base, Fixes(env, t.syms, t.rels[..r]), old(image))
        invariant TableOutcome(env, t.syms, t.rels[r..], |image|) == TableOutcome(env, t.syms, t.rels, |image|)
      {
        ghost var before := image;
        TableStep(env, t, r, |image|);
        o, syms := Relocate(env, syms, t.rels[r], t.syms);
        if o != Done {
          return;
        }
        OneMoreFix(env, t, r, old(image), before);
        r := r + 1;
      }
      assert t.rels[..r] == t.rels;
      TableEnd(env, t, |image|);
      o := Done;
    }

    /** All relocation tables, in the order of their sections. */
    method RelocateAll(env: Env, tables: seq<Table>) returns (o: Outcome)
      modifies this
      ensures |image| == old(|image|) && o == AllOutcome(env, tables, |image|)
      ensures o == Done ==> forall k :: 0 <= k < |tables| ==> AllDoable(env, tables[k].syms, tables[k].rels)
      ensures o == Done ==> AllFit(AllFixes(env, tables), |image|) &&
                            image == ApplyAll(env.base, AllFixes(env, tables), old(image))
      ensures o == Done && Apart(AllFixes(env, tables)) ==>
                && AtOnce(env.base, AllFixes(env, tables), old(image), image)
                && AllRight(env, tables, old(image), image)
    {
      hide TableOutcome;
      var i := 0;
      assert tables[..0] == [] && tables[0..] == tables;
      while i < |tables|
        invariant 0 <= i <= |tables| && |image| == old(|image|)
        invariant forall k :: 0 <= k < i ==> AllDoable(env, tables[k].syms, tables[k].rels)
        invariant AllFit(AllFixes(env, tables[..i]), |image|)
        invariant image == ApplyAll(env.base, AllFixes(env, tables[..i]), old(image))
        invariant AllOutcome(env, tables[i..], |image|) == AllOutcome(env, tables, |image|)
      {
        ghost var before := image;
        assert tables[i..][1..] == tables[i + 1..];
        o := RelocateTable(env, tables[i]);
        if o != Done {
          return;
        }
        OneMoreTable(env, tables, i, old(image), before);
        i := i + 1;
      }
      assert tables[..i] == tables;
      o := Done;
      if Apart(AllFixes(env, tables)) {
        SequentialIsAtOnce(env.base, AllFixes(env, tables), old(image));
        AtOnceRight(env, tables, old(image), image);
      }
    }
  }

  /** Rewriting symbols leaves those of sections alone and makes no other one. */
  ghost predicate SameSections(a: seq<Sym>, b: seq<Sym>)
  {
    |a| == |b| && forall i :: 0 <= i < |a| && (a[i].index.In? || b[i].index.In?) ==> a[i].index == b[i].index
  }

  lemma SameSelf(a: seq<Sym>)
    ensures SameSections(a, a)
  {
  }

  lemma TableStep(env: Env, t: Table, r: nat, n: nat)
    requires r < |t.rels|
    ensures TableOutcome(env, t.syms, t.rels[r..], n) ==
            var o := OneOutcome(env, t.syms, t.rels[r], n);
            if o == Done then TableOutcome(env, t.syms, t.rels[r + 1..], n) else o
  {
    assert t.rels[r..][1..] == t.rels[r + 1..];
  }

  lemma TableEnd(env: Env, t: Table, n: nat)
    ensures TableOutcome(env, t.syms, t.rels[|t.rels|..], n) == Done
  {
    assert t.rels[|t.rels|..] == [];
  }

  lemma OneMoreFix(env: Env, t: Table, r: nat, start: seq<Byte>, before: seq<Byte>)
    requires r < |t.rels| && AllDoable(env, t.syms, t.rels[..r]) && Doable(env, t.syms, t.rels[r])
    requires AllFit(Fixes(env, t.syms, t.rels[..r]), |start|) && Fits(|start|, FixOf(env, t.syms, t.rels[r]))
    requires before == ApplyAll(env.base, Fixes(env, t.syms, t.rels[..r]), start)
    ensures AllDoable(env, t.syms, t.rels[..r + 1]) && AllFit(Fixes(env, t.syms, t.rels[..r + 1]), |start|)
    ensures ApplyAll(env.base, Fixes(env, t.syms, t.rels[..r + 1]), start) ==
            Apply(env.base, FixOf(env, t.syms, t.rels[r]), before)
  {
    hide Apply;
    hide ApplyAll;
    hide FixOf;
    hide Doable;
    FixesPrefix(env, t.syms, t.rels, r);
    var f := FixOf(env, t.syms, t.rels[r]);
    var fs := Fixes(env, t.syms, t.rels[..r]);
    assert AllFit(fs + [f], |start|);
    ApplyMore(env.base, fs, [f], start);
    OneFix(env.base, f, before);
  }

  lemma FixesPrefix(env: Env, syms: seq<Sym>, rels: seq<Rel>, r: nat)
    requires r < |rels| && AllDoable(env, syms, rels[..r]) && Doable(env, syms, rels[r])
    ensures AllDoable(env, syms, rels[..r + 1])
    ensures Fixes(env, syms, rels[..r + 1]) == Fixes(env, syms, rels[..r]) + [FixOf(env, syms, rels[r])]
  {
    hide Doable;
    hide FixOf;
    var a, b := rels[..r], rels[..r + 1];
    forall i | 0 <= i < |b| ensures Doable(env, syms, b[i]) { assert b[i] == if i < r then a[i] else rels[r]; }
    var x, y := Fixes(env, syms, b), Fixes(env, syms, a);
    forall i | 0 <= i < r ensures x[i] == y[i] { assert b[i] == a[i]; }
  }

  lemma OneFix(base: nat, f: Fix, image: seq<Byte>)
    requires Fits(|image|, f)
    ensures AllFit([f], |image|) && ApplyAll(base, [f], image) == Apply(base, f, image)
  {
    assert [f][1..] == [];
  }

  lemma OneMoreTable(env: Env, tables: seq<Table>, i: nat, start: seq<Byte>, before: seq<Byte>)
    requires i < |tables| && forall k :: 0 <= k <= i ==> AllDoable(env, tables[k].syms, tables[k].rels)
    requires AllFit(AllFixes(env, tables[..i]), |start|) && before == ApplyAll(env.base, AllFixes(env, tables[..i]), start)
    requires AllFit(Fixes(env, tables[i].syms, tables[i].rels), |start|)
    ensures AllFit(AllFixes(env, tables[..i + 1]), |start|)
    ensures ApplyAll(env.base, AllFixes(env, tables[..i + 1]), start) ==
            ApplyAll(env.base, Fixes(env, tables[i].syms, tables[i].rels), before)
  {
    var ts := tables[..i + 1];
    assert ts[..i] == tables[..i];
    assert AllFixes(env, ts) == AllFixes(env, ts[..i]) + Fixes(env, ts[i].syms, ts[i].rels);
    ApplyMore(env.base, AllFixes(env, tables[..i]), Fixes(env, tables[i].syms, tables[i].rels), start);
  }
}
