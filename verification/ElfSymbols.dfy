/** Moving local symbols to the front of an ELF symbol table while relocations keep referring to
    the same symbols. */
module ElfSymbols {
  import opened Division
  import opened Permutations

  // ---------------------------------------------------------------- relocation entries

  datatype Class = Class32 | Class64

  /** Largest symbol index an entry of this class can hold, plus one. */
  function SymbolLimit(c: Class): nat {
    if c.Class32? then 0x100_0000 else 0x1_0000_0000
  }

  function TypeLimit(c: Class): nat {
    if c.Class32? then 0x100 else 0x1_0000_0000
  }

  /** ELF32_R_INFO and ELF64_R_INFO, stored in a field of the class's width. */
  function RInfo(c: Class, symbol: nat, rtype: nat): nat {
    if c.Class32? then (symbol * 0x100 + rtype % 0x100) % 0x1_0000_0000
    else (symbol * 0x1_0000_0000 + rtype % 0x1_0000_0000) % 0x1_0000_0000_0000_0000
  }

  function RSym(c: Class, info: nat): nat {
    if c.Class32? then info / 0x100 else info / 0x1_0000_0000
  }

  function RType(c: Class, info: nat): nat {
    if c.Class32? then info % 0x100 else info % 0x1_0000_0000
  }

  /** An info word decodes to what it was made of exactly when both parts fit. */
  lemma InfoRoundTrip(c: Class, symbol: nat, rtype: nat)
    ensures RSym(c, RInfo(c, symbol, rtype)) == symbol && RType(c, RInfo(c, symbol, rtype)) == rtype
            <==> symbol < SymbolLimit(c) && rtype < TypeLimit(c)
  {
    InfoParts(c, symbol, rtype);
    hide RInfo, RSym, RType;
  }

  /** Each part comes back modulo its limit. */
  lemma InfoParts(c: Class, symbol: nat, rtype: nat)
    ensures RSym(c, RInfo(c, symbol, rtype)) == symbol % SymbolLimit(c)
    ensures RType(c, RInfo(c, symbol, rtype)) == rtype % TypeLimit(c)
  {
    if c.Class32? {
      PackedParts(symbol, rtype % 0x100, 0x100_0000, 0x100);
    } else {
      PackedParts(symbol, rtype % 0x1_0000_0000, 0x1_0000_0000, 0x1_0000_0000);
    }
  }

  /** What is left of the two parts after packing them into a word. */
  lemma PackedParts(symbol: nat, low: nat, symbols: nat, types: nat)
    requires symbols > 0 && low < types
    ensures symbols * types > 0
    ensures var info := (symbol * types + low) % (symbols * types);
            info / types == symbol % symbols && info % types == low
  {
    var q, s := symbol / symbols, symbol % symbols;
    GapAtLeast(s, symbols, types);
    SplitProduct(symbol, symbols, types, q, s);
    Remainder(symbol * types + low, symbols * types, q, s * types + low);
    Remainder(s * types + low, types, s, low);
  }

  lemma SplitProduct(symbol: nat, symbols: nat, types: nat, q: nat, s: nat)
    requires symbol == q * symbols + s
    ensures symbol * types == q * (symbols * types) + s * types
  {
    assert (q * symbols) * types == q * (symbols * types);
  }

  /** One entry of an SHT_REL or SHT_RELA section; SHT_REL entries have no addend. */
  datatype Rel = Rel(offset: nat, info: nat, addend: int)

  datatype Kind = SectionRel | SectionRela

  /** An entry as get_entry reports it. */
  datatype Entry = Entry(offset: nat, symbol: nat, rtype: nat, addend: int)

  function GetEntry(c: Class, kind: Kind, r: Rel): Entry {
    Entry(r.offset, RSym(c, r.info), RType(c, r.info), if kind.SectionRel? then 0 else r.addend)
  }

  /** The bits an info field of this class can hold. */
  predicate InfoFits(c: Class, r: Rel) {
    r.info < if c.Class32? then 0x1_0000_0000 else 0x1_0000_0000_0000_0000
  }

  function SetEntry(c: Class, kind: Kind, r: Rel, e: Entry): Rel {
    Rel(e.offset, RInfo(c, e.symbol, e.rtype), if kind.SectionRel? then r.addend else e.addend)
  }

  /** Reading back a written entry gives what was written, if the parts fit. */
  lemma EntryRoundTrip(c: Class, kind: Kind, r: Rel, symbol: nat)
    requires InfoFits(c, r) && symbol < SymbolLimit(c)
    ensures var r' := SetEntry(c, kind, r, GetEntry(c, kind, r).(symbol := symbol));
            && InfoFits(c, r')
            && GetEntry(c, kind, r') == GetEntry(c, kind, r).(symbol := symbol)
            && r'.addend == r.addend
  {
    InfoRoundTrip(c, symbol, RType(c, r.info));
  }

  /** Any entry that fits is read back as it was written; where there is no addend, it reads as 0. */
  lemma WrittenBack(c: Class, kind: Kind, r: Rel, e: Entry)
    requires e.symbol < SymbolLimit(c) && e.rtype < TypeLimit(c)
    ensures GetEntry(c, kind, SetEntry(c, kind, r, e)) == if kind.SectionRel? then e.(addend := 0) else e
  {
    InfoRoundTrip(c, e.symbol, e.rtype);
    hide RInfo, RSym, RType;
  }

  function Swapped(i: nat, first: nat, second: nat): nat {
    if i == first then second else if i == second then first else i
  }

  /** What a symbol index becomes under a permutation of the table. */
  function Renamed(perm: seq<nat>, symbol: nat): nat {
    if symbol < |perm| then perm[symbol] else symbol
  }

  // ---------------------------------------------------------------- the symbol table

  datatype Symbol = Symbol(name: nat, value: nat, size: nat, info: nat, other: nat, shndx: nat) {
    predicate Local() { info / 16 == 0 }
  }

  /** ELF_ST_INFO, stored in a byte. */
  function StInfo(bind: nat, stype: nat): nat {
    (bind * 16 + stype % 16) % 256
  }

  /** A symbol added with that binding and type is local if and only if its binding is STB_LOCAL, which is 0:
      four bits of the binding are kept, and the type plays no part. */
  lemma LocalIff(s: Symbol, bind: nat, stype: nat)
    requires s.info == StInfo(bind, stype)
    ensures s.Local() <==> bind % 16 == 0
  {
    var b, t := bind % 16, stype % 16;
    assert bind * 16 + t == bind / 16 * 256 + (b * 16 + t);
    Remainder(bind * 16 + t, 256, bind / 16, b * 16 + t);
  }

  /** Symbol `i` of the old table is symbol `perm[i]` of the new one. */
  ghost predicate MovedBy(perm: seq<nat>, before: seq<Symbol>, after: seq<Symbol>) {
    && |perm| == |before| == |after| && IsPermutation(perm, |perm|)
    && forall i | 0 <= i < |perm| :: after[perm[i]] == before[i]
  }

  /** Every relocation differs only in that its symbol index has been renamed. */
  ghost predicate RenamedBy(perm: seq<nat>, c: Class, kind: Kind, before: seq<Rel>, after: seq<Rel>) {
    && |after| == |before|
    && forall k | 0 <= k < |before| ::
         && InfoFits(c, after[k]) && after[k].addend == before[k].addend
         && GetEntry(c, kind, after[k])
            == GetEntry(c, kind, before[k]).(symbol := Renamed(perm, RSym(c, before[k].info)))
  }

  /** Relocations that refer into the table refer to the same symbol records as before. */
  lemma MeaningKept(perm: seq<nat>, c: Class, kind: Kind, syms: seq<Symbol>, syms': seq<Symbol>,
                    rels: seq<Rel>, rels': seq<Rel>, k: nat)
    requires MovedBy(perm, syms, syms') && RenamedBy(perm, c, kind, rels, rels') && k < |rels|
    ensures var s, s' := RSym(c, rels[k].info), RSym(c, rels'[k].info);
            && (s < |syms| <==> s' < |syms'|)
            && (s < |syms| ==> syms'[s'] == syms[s])
            && rels'[k].offset == rels[k].offset && RType(c, rels'[k].info) == RType(c, rels[k].info)
  {
    assert GetEntry(c, kind, rels'[k]).symbol == Renamed(perm, RSym(c, rels[k].info));
    assert GetEntry(c, kind, rels'[k]).rtype == RType(c, rels[k].info);
    assert GetEntry(c, kind, rels'[k]).offset == rels[k].offset;
  }

  /** A permutation followed by a swap of two places. */
  function Then(perm: seq<nat>, first: nat, second: nat): (r: seq<nat>)
    ensures |r| == |perm| && forall i | 0 <= i < |perm| :: r[i] == Swapped(perm[i], first, second)
  {
    seq(|perm|, i requires 0 <= i < |perm| => Swapped(perm[i], first, second))
  }

  lemma SwapMoves(perm: seq<nat>, syms: seq<Symbol>, now: seq<Symbol>, first: nat, second: nat)
    requires MovedBy(perm, syms, now) && first < second < |now|
    ensures MovedBy(Then(perm, first, second), syms, now[first := now[second]][second := now[first]])
  {
  }

  lemma SwapRenames(perm: seq<nat>, c: Class, kind: Kind, rels: seq<Rel>, now: seq<Rel>, after: seq<Rel>,
                    first: nat, second: nat)
    requires IsPermutation(perm, |perm|) && RenamedBy(perm, c, kind, rels, now) && |after| == |now|
    requires first < |perm| && second < |perm|
    requires forall k | 0 <= k < |now| ::
               && InfoFits(c, after[k]) && after[k].addend == now[k].addend
               && GetEntry(c, kind, after[k])
                  == GetEntry(c, kind, now[k]).(symbol := Swapped(RSym(c, now[k].info), first, second))
    ensures RenamedBy(Then(perm, first, second), c, kind, rels, after)
  {
  }

  class Tables {
    const elfClass: Class
    const kind: Kind
    const symbols: array<Symbol>
    const relocations: array<Rel>
    /** The sh_info field of the symbol section. */
    var info: nat

    ghost predicate Valid()
      reads this, relocations
    {
      && symbols.Length < SymbolLimit(elfClass)
      && forall k | 0 <= k < relocations.Length :: InfoFits(elfClass, relocations[k])
    }

    constructor (c: Class, k: Kind, syms: array<Symbol>, rels: array<Rel>)
      requires syms.Length < SymbolLimit(c) && forall i | 0 <= i < rels.Length :: InfoFits(c, rels[i])
      ensures Valid() && elfClass == c && kind == k && symbols == syms && relocations == rels
    {
      elfClass, kind, symbols, relocations, info := c, k, syms, rels, 0;
    }

    /** The relocation section's callback: exchange two symbol indices in every entry. */
    method SwapSymbols(first: nat, second: nat)
      requires Valid() && first < SymbolLimit(elfClass) && second < SymbolLimit(elfClass) && first != second
      modifies relocations
      ensures Valid()
      ensures forall k | 0 <= k < relocations.Length ::
                && relocations[k].addend == old(relocations[k]).addend
                && GetEntry(elfClass, kind, relocations[k])
                   == GetEntry(elfClass, kind, old(relocations[k])).(
                        symbol := Swapped(RSym(elfClass, old(relocations[k]).info), first, second))
    {
      hide RInfo, RSym, RType;
      for i := 0 to relocations.Length
        invariant Valid()
        invariant forall k | i <= k < relocations.Length :: relocations[k] == old(relocations[k])
        invariant forall k | 0 <= k < i ::
                    && relocations[k].addend == old(relocations[k]).addend
                    && GetEntry(elfClass, kind, relocations[k])
                       == GetEntry(elfClass, kind, old(relocations[k])).(
                            symbol := Swapped(RSym(elfClass, old(relocations[k]).info), first, second))
      {
        var e := GetEntry(elfClass, kind, relocations[i]);
        EntryRoundTrip(elfClass, kind, relocations[i], first);
        EntryRoundTrip(elfClass, kind, relocations[i], second);
        if e.symbol == first {
          relocations[i] := SetEntry(elfClass, kind, relocations[i], e.(symbol := second));
        }
        if e.symbol == second {
          relocations[i] := SetEntry(elfClass, kind, relocations[i], e.(symbol := first));
        }
      }
    }

    /** The first index at or after `from` whose symbol is, or is not, local. */
    method Scan(from: nat, local: bool) returns (i: nat)
      ensures from <= i && (from <= symbols.Length ==> i <= symbols.Length) && (symbols.Length < from ==> i == from)
      ensures forall k | from <= k < i && k < symbols.Length :: symbols[k].Local() != local
      ensures i < symbols.Length ==> symbols[i].Local() == local
    {
      i := from;
      while i < symbols.Length && symbols[i].Local() != local
        invariant from <= i && (from <= symbols.Length ==> i <= symbols.Length) && (symbols.Length < from ==> i == from)
        invariant forall k | from <= k < i && k < symbols.Length :: symbols[k].Local() != local
      {
        i := i + 1;
      }
    }

    /** The callback followed by the exchange of the two records. */
    method SwapPair(first: nat, second: nat, ghost perm: seq<nat>,
                    ghost syms: seq<Symbol>, ghost rels: seq<Rel>)
      requires Valid() && first < second < symbols.Length
      requires MovedBy(perm, syms, symbols[..]) && RenamedBy(perm, elfClass, kind, rels, relocations[..])
      modifies symbols, relocations
      ensures Valid()
      ensures MovedBy(Then(perm, first, second), syms, symbols[..])
      ensures RenamedBy(Then(perm, first, second), elfClass, kind, rels, relocations[..])
      ensures symbols[..] == old(symbols[..])[first := old(symbols[second])][second := old(symbols[first])]
    {
      hide GetEntry, SetEntry;
      ghost var now := relocations[..];
      SwapMoves(perm, syms, symbols[..], first, second);
      SwapSymbols(first, second);
      SwapRenames(perm, elfClass, kind, rels, now, relocations[..], first, second);
      symbols[first], symbols[second] := symbols[second], symbols[first];
    }

    /** Moves local symbols to the front; returns, and stores, the index of the first other. */
    method ArrangeLocalSymbols() returns (firstNotLocal: nat, ghost perm: seq<nat>)
      requires Valid()
      modifies this, symbols, relocations
      ensures Valid() && info == firstNotLocal >= 1
      ensures firstNotLocal <= symbols.Length || firstNotLocal == 1
      ensures forall k | 1 <= k < firstNotLocal && k < symbols.Length :: symbols[k].Local()
      ensures forall k | firstNotLocal <= k < symbols.Length :: !symbols[k].Local()
      ensures MovedBy(perm, old(symbols[..]), symbols[..])
      ensures RenamedBy(perm, elfClass, kind, old(relocations[..]), relocations[..])
      ensures |perm| > 0 ==> perm[0] == 0
    {
      hide MovedBy, RenamedBy;
      firstNotLocal := 1;
      perm := Identity(symbols.Length);
      var count := symbols.Length;
      IdentityFits(relocations[..]);
      while true
        invariant Valid() && 1 <= firstNotLocal && (firstNotLocal <= count || firstNotLocal == 1)
        invariant forall k | 1 <= k < firstNotLocal && k < count :: symbols[k].Local()
        invariant |perm| == count && MovedBy(perm, old(symbols[..]), symbols[..])
        invariant RenamedBy(perm, elfClass, kind, old(relocations[..]), relocations[..])
        invariant count > 0 ==> perm[0] == 0
        decreases count - firstNotLocal, if firstNotLocal < count && symbols[firstNotLocal].Local() then 0 else 1
      {
        firstNotLocal := Scan(firstNotLocal, false);
        var current := Scan(firstNotLocal + 1, true);
        if firstNotLocal < count && current < count {
          SwapPair(firstNotLocal, current, perm, old(symbols[..]), old(relocations[..]));
          perm := Then(perm, firstNotLocal, current);
          assert symbols[firstNotLocal] == symbols[..][firstNotLocal];
          assert forall k | 1 <= k < firstNotLocal :: symbols[k] == symbols[..][k];
        } else {
          info := firstNotLocal;
          return;
        }
      }
    }

    lemma IdentityFits(rels: seq<Rel>)
      requires forall k | 0 <= k < |rels| :: InfoFits(elfClass, rels[k])
      ensures MovedBy(Identity(symbols.Length), symbols[..], symbols[..])
      ensures RenamedBy(Identity(symbols.Length), elfClass, kind, rels, rels)
    {
    }
  }
}
