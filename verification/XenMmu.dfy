/** Pinning of page tables under Xen: the walk over a directory, the callbacks that mark its
    pages, and what stays true while tables are pinned, unpinned, allocated and released. */
module XenMmu {
  import opened Nrv

  type Page = nat

  type Tables = map<Page, seq<Option<Page>>>

  datatype Level = PGD | PUD | PMD | PTE

  /** The constants of a configuration. A level whose tables have one entry is folded: the
      entry is that of the level above. The limit is given by the indices of its last byte. */
  datatype Cfg = Cfg(foldPud: bool, foldPmd: bool, pgdLimit: nat, pudLimit: nat, pmdLimit: nat,
                     holeLow: nat, holeHigh: nat, translated: bool, is64: bool, split: bool, highmem: set<Page>)

  /** Page tables, directories, the second page that some directories have (the user directory
      on 64 bits, the kernel's PMD with PAE), and the three kinds of marks: the page flag, the
      read-only mapping, and the pin that the hypervisor holds. */
  datatype Paging = Paging(tables: Tables, roots: set<Page>, extra: map<Page, Page>,
                         pinned: set<Page>, readonly: set<Page>, xen: set<Page>)

  /** One call of the callback. */
  datatype Visit = Visit(level: Level, page: Page, i: nat, j: nat, k: nat)

  function Entries(m: Tables, p: Page): seq<Option<Page>> { if p in m then m[p] else [] }

  /** The table that an entry leads to; of a folded level, the entry itself. */
  function Below(m: Tables, p: Page, folded: bool): seq<Option<Page>>
  {
    if folded then [Some(p)] else Entries(m, p)
  }

  // ------------------------------------------------------------------------- the walk

  function PmdVisits(c: Cfg, m: Tables, pmd: seq<Option<Page>>, i: nat, j: nat, k: nat, tight: bool): seq<Visit>
    decreases |pmd| - k
  {
    if k >= |pmd| || (tight && k > c.pmdLimit) then []
    else
      (if pmd[k].None? then [] else [Visit(PTE, pmd[k].value, i, j, k)]) + PmdVisits(c, m, pmd, i, j, k + 1, tight)
  }

  function PmdPage(c: Cfg, m: Tables, e: Option<Page>, i: nat, j: nat, tight: bool): seq<Visit>
  {
    if e.None? then []
    else
      (if c.foldPmd then [] else [Visit(PMD, e.value, i, j, 0)])
      + PmdVisits(c, m, Below(m, e.value, c.foldPmd), i, j, 0, tight && j == c.pudLimit)
  }

  function PudVisits(c: Cfg, m: Tables, pud: seq<Option<Page>>, i: nat, j: nat, tight: bool): seq<Visit>
    decreases |pud| - j
  {
    if j >= |pud| || (tight && j > c.pudLimit) then []
    else PmdPage(c, m, pud[j], i, j, tight) + PudVisits(c, m, pud, i, j + 1, tight)
  }

  predicate InHole(c: Cfg, i: nat) { c.holeLow <= i < c.holeHigh }

  function PudPage(c: Cfg, m: Tables, e: Option<Page>, i: nat): seq<Visit>
  {
    if InHole(c, i) || e.None? then []
    else
      (if c.foldPud then [] else [Visit(PUD, e.value, i, 0, 0)])
      + PudVisits(c, m, Below(m, e.value, c.foldPud), i, 0, i == c.pgdLimit)
  }

  function PgdVisits(c: Cfg, m: Tables, pgd: seq<Option<Page>>, i: nat): seq<Visit>
    decreases |pgd| - i
  {
    if i >= |pgd| || i > c.pgdLimit then []
    else PudPage(c, m, pgd[i], i) + PgdVisits(c, m, pgd, i + 1)
  }

  /** All calls of the callback, in order; the directory comes last. */
  function Visits(c: Cfg, m: Tables, pgd: Page): seq<Visit>
  {
    if c.translated then [] else PgdVisits(c, m, Entries(m, pgd), 0) + [Visit(PGD, pgd, 0, 0, 0)]
  }

  // ------------------------------------------------- which pages, and in which order

  /** The entry of the directory, of a PUD table and of a PMD table at given indices, when the
      walk goes there. */
  function At1(c: Cfg, m: Tables, pgd: Page, i: nat): Option<Page>
  {
    var es := Entries(m, pgd);
    if i < |es| && i <= c.pgdLimit && !InHole(c, i) then es[i] else None
  }

  function At2(c: Cfg, m: Tables, pgd: Page, i: nat, j: nat): Option<Page>
  {
    var e := At1(c, m, pgd, i);
    if e.None? then None
    else
      var es := Below(m, e.value, c.foldPud);
      if j < |es| && (i == c.pgdLimit ==> j <= c.pudLimit) then es[j] else None
  }

  function At3(c: Cfg, m: Tables, pgd: Page, i: nat, j: nat, k: nat): Option<Page>
  {
    var e := At2(c, m, pgd, i, j);
    if e.None? then None
    else
      var es := Below(m, e.value, c.foldPmd);
      if k < |es| && (i == c.pgdLimit && j == c.pudLimit ==> k <= c.pmdLimit) then es[k] else None
  }

  /** The page belongs to the tree, below the limit and outside the hole. */
  predicate Placed(c: Cfg, m: Tables, pgd: Page, v: Visit)
  {
    match v.level
    case PGD => v == Visit(PGD, pgd, 0, 0, 0)
    case PUD => !c.foldPud && v.j == 0 && v.k == 0 && At1(c, m, pgd, v.i) == Some(v.page)
    case PMD => !c.foldPmd && v.k == 0 && At2(c, m, pgd, v.i, v.j) == Some(v.page)
    case PTE => At3(c, m, pgd, v.i, v.j, v.k) == Some(v.page)
  }

  lemma {:induction false} PmdMembers(c: Cfg, m: Tables, pmd: seq<Option<Page>>, i: nat, j: nat, k: nat,
                                      tight: bool, v: Visit)
    ensures v in PmdVisits(c, m, pmd, i, j, k, tight)
            <==> v.level == PTE && v.i == i && v.j == j && k <= v.k < |pmd|
                 && (tight ==> v.k <= c.pmdLimit) && pmd[v.k] == Some(v.page)
    decreases |pmd| - k
  {
    if k < |pmd| {
      PmdMembers(c, m, pmd, i, j, k + 1, tight, v);
    }
  }

  /** v is a visit of the subtree below entry e at (i, j). */
  predicate UnderPmd(c: Cfg, m: Tables, e: Option<Page>, i: nat, j: nat, tight: bool, v: Visit)
  {
    && e.Some? && v.i == i && v.j == j
    && if v.level == PMD then !c.foldPmd && v.k == 0 && v.page == e.value
       else
         var es := Below(m, e.value, c.foldPmd);
         v.level == PTE && v.k < |es| && (tight && j == c.pudLimit ==> v.k <= c.pmdLimit) && es[v.k] == Some(v.page)
  }

  lemma PmdPageMembers(c: Cfg, m: Tables, e: Option<Page>, i: nat, j: nat, tight: bool, v: Visit)
    ensures v in PmdPage(c, m, e, i, j, tight) <==> UnderPmd(c, m, e, i, j, tight, v)
  {
    if e.Some? {
      PmdMembers(c, m, Below(m, e.value, c.foldPmd), i, j, 0, tight && j == c.pudLimit, v);
    }
  }

  lemma {:induction false} PudMembers(c: Cfg, m: Tables, pud: seq<Option<Page>>, i: nat, j: nat, tight: bool, v: Visit)
    ensures v in PudVisits(c, m, pud, i, j, tight)
            <==> j <= v.j < |pud| && (tight ==> v.j <= c.pudLimit) && UnderPmd(c, m, pud[v.j], i, v.j, tight, v)
    decreases |pud| - j
  {
    hide PmdPage, UnderPmd;
    if j < |pud| && (tight ==> j <= c.pudLimit) {
      PmdPageMembers(c, m, pud[j], i, j, tight, v);
      PudMembers(c, m, pud, i, j + 1, tight, v);
      UnderIndex(c, m, pud[j], i, j, tight, v);
    }
  }

  lemma UnderIndex(c: Cfg, m: Tables, e: Option<Page>, i: nat, j: nat, tight: bool, v: Visit)
    ensures UnderPmd(c, m, e, i, j, tight, v) ==> v.i == i && v.j == j && v.level in {PMD, PTE}
  {
  }

  /** v is a visit of the subtree below entry e of the directory. */
  predicate UnderPud(c: Cfg, m: Tables, e: Option<Page>, i: nat, v: Visit)
  {
    && e.Some? && !InHole(c, i) && v.i == i
    && if v.level == PUD then !c.foldPud && v.j == 0 && v.k == 0 && v.page == e.value
       else
         var es := Below(m, e.value, c.foldPud);
         v.j < |es| && (i == c.pgdLimit ==> v.j <= c.pudLimit) && UnderPmd(c, m, es[v.j], i, v.j, i == c.pgdLimit, v)
  }

  lemma PudPageMembers(c: Cfg, m: Tables, e: Option<Page>, i: nat, v: Visit)
    ensures v in PudPage(c, m, e, i) <==> UnderPud(c, m, e, i, v)
  {
    hide UnderPmd, PudVisits;
    if e.Some? && !InHole(c, i) {
      var es := Below(m, e.value, c.foldPud);
      PudMembers(c, m, es, i, 0, i == c.pgdLimit, v);
      if v.j < |es| {
        UnderIndex(c, m, es[v.j], i, v.j, i == c.pgdLimit, v);
      }
    }
  }

  lemma {:induction false} PgdMembers(c: Cfg, m: Tables, pgd: seq<Option<Page>>, i: nat, v: Visit)
    ensures v in PgdVisits(c, m, pgd, i) <==> i <= v.i < |pgd| && v.i <= c.pgdLimit && UnderPud(c, m, pgd[v.i], v.i, v)
    decreases |pgd| - i
  {
    hide PudPage, UnderPmd;
    if i < |pgd| && i <= c.pgdLimit {
      PudPageMembers(c, m, pgd[i], i, v);
      PgdMembers(c, m, pgd, i + 1, v);
    }
  }

  /** The walk calls back for exactly the pages of the tree up to the limit and outside the
      hole, at every level that is not folded, and for the directory. */
  lemma VisitsExactly(c: Cfg, m: Tables, pgd: Page, v: Visit)
    requires !c.translated
    ensures v in Visits(c, m, pgd) <==> Placed(c, m, pgd, v)
  {
    hide PgdVisits, Below;
    PgdMembers(c, m, Entries(m, pgd), 0, v);
  }

  /** The order of the indices, with a table before what it holds. */
  predicate Before(a: Visit, b: Visit)
  {
    || a.i < b.i
    || (a.i == b.i && a.level == PUD && b.level != PUD)
    || (a.i == b.i && a.level != PUD && b.level != PUD && a.j < b.j)
    || (a.i == b.i && a.j == b.j && a.level == PMD && b.level == PTE)
    || (a.i == b.i && a.j == b.j && a.level == PTE && b.level == PTE && a.k < b.k)
  }

  predicate InOrder(vs: seq<Visit>) { forall x, y | 0 <= x < y < |vs| :: Before(vs[x], vs[y]) }

  lemma OrderOfParts(a: seq<Visit>, b: seq<Visit>)
    requires InOrder(a) && InOrder(b)
    requires forall x, y | x in a && y in b :: Before(x, y)
    ensures InOrder(a + b)
  {
    hide Before;
  }

  lemma {:induction false} PmdOrder(c: Cfg, m: Tables, pmd: seq<Option<Page>>, i: nat, j: nat, k: nat, tight: bool)
    ensures InOrder(PmdVisits(c, m, pmd, i, j, k, tight))
    decreases |pmd| - k
  {
    if k < |pmd| && (tight ==> k <= c.pmdLimit) {
      var a := if pmd[k].None? then [] else [Visit(PTE, pmd[k].value, i, j, k)];
      var b := PmdVisits(c, m, pmd, i, j, k + 1, tight);
      PmdOrder(c, m, pmd, i, j, k + 1, tight);
      forall x, y | x in a && y in b
        ensures Before(x, y)
      {
        PmdMembers(c, m, pmd, i, j, k + 1, tight, y);
      }
      OrderOfParts(a, b);
    }
  }

  lemma PmdPageOrder(c: Cfg, m: Tables, e: Option<Page>, i: nat, j: nat, tight: bool)
    ensures InOrder(PmdPage(c, m, e, i, j, tight))
  {
    if e.Some? {
      var a := if c.foldPmd then [] else [Visit(PMD, e.value, i, j, 0)];
      var b := PmdVisits(c, m, Below(m, e.value, c.foldPmd), i, j, 0, tight && j == c.pudLimit);
      PmdOrder(c, m, Below(m, e.value, c.foldPmd), i, j, 0, tight && j == c.pudLimit);
      forall x, y | x in a && y in b
        ensures Before(x, y)
      {
        PmdMembers(c, m, Below(m, e.value, c.foldPmd), i, j, 0, tight && j == c.pudLimit, y);
      }
      OrderOfParts(a, b);
    }
  }

  lemma {:induction false} PudOrder(c: Cfg, m: Tables, pud: seq<Option<Page>>, i: nat, j: nat, tight: bool)
    ensures InOrder(PudVisits(c, m, pud, i, j, tight))
    decreases |pud| - j
  {
    if j < |pud| && (tight ==> j <= c.pudLimit) {
      var a, b := PmdPage(c, m, pud[j], i, j, tight), PudVisits(c, m, pud, i, j + 1, tight);
      PmdPageOrder(c, m, pud[j], i, j, tight);
      PudOrder(c, m, pud, i, j + 1, tight);
      hide InOrder, PmdPage, UnderPmd;
      forall x, y | x in a && y in b
        ensures Before(x, y)
      {
        PmdPageMembers(c, m, pud[j], i, j, tight, x);
        UnderIndex(c, m, pud[j], i, j, tight, x);
        PudMembers(c, m, pud, i, j + 1, tight, y);
        UnderIndex(c, m, pud[y.j], i, y.j, tight, y);
      }
      OrderOfParts(a, b);
    }
  }

  lemma PudPageOrder(c: Cfg, m: Tables, e: Option<Page>, i: nat)
    ensures InOrder(PudPage(c, m, e, i))
  {
    if e.Some? && !InHole(c, i) {
      var es, tight := Below(m, e.value, c.foldPud), i == c.pgdLimit;
      var a, b := if c.foldPud then [] else [Visit(PUD, e.value, i, 0, 0)], PudVisits(c, m, es, i, 0, tight);
      PudOrder(c, m, es, i, 0, tight);
      forall x, y | x in a && y in b
        ensures Before(x, y)
      {
        PudMembers(c, m, es, i, 0, tight, y);
        UnderIndex(c, m, es[y.j], i, y.j, tight, y);
      }
      OrderOfParts(a, b);
    }
  }

  lemma {:induction false} PgdOrder(c: Cfg, m: Tables, pgd: seq<Option<Page>>, i: nat)
    ensures InOrder(PgdVisits(c, m, pgd, i))
    decreases |pgd| - i
  {
    if i < |pgd| && i <= c.pgdLimit {
      var a, b := PudPage(c, m, pgd[i], i), PgdVisits(c, m, pgd, i + 1);
      PudPageOrder(c, m, pgd[i], i);
      PgdOrder(c, m, pgd, i + 1);
      hide InOrder, PudPage;
      forall x, y | x in a && y in b
        ensures Before(x, y)
      {
        PudPageMembers(c, m, pgd[i], i, x);
        PgdMembers(c, m, pgd, i + 1, y);
      }
      OrderOfParts(a, b);
    }
  }

  /** The pages come in the order of the indices, each table before what it holds, and the
      directory last. */
  lemma VisitsInOrder(c: Cfg, m: Tables, pgd: Page)
    requires !c.translated
    ensures var vs := Visits(c, m, pgd);
            vs != [] && vs[|vs| - 1] == Visit(PGD, pgd, 0, 0, 0) && InOrder(vs[..|vs| - 1])
  {
    PgdOrder(c, m, Entries(m, pgd), 0);
    var vs := Visits(c, m, pgd);
    assert vs[..|vs| - 1] == PgdVisits(c, m, Entries(m, pgd), 0);
  }

  // ---------------------------------------------------------------------- the callbacks

  /** xen_pin_page. */
  function PinPage(c: Cfg, s: Paging, page: Page, level: Level): Paging
  {
    if page in s.pinned then s
    else if page in c.highmem then s.(pinned := s.pinned + {page})
    else s.(pinned := s.pinned + {page}, readonly := s.readonly + {page},
            xen := if c.split && level == PTE then s.xen + {page} else s.xen)
  }

  /** xen_unpin_page. */
  function UnpinPage(c: Cfg, s: Paging, page: Page, level: Level): Paging
  {
    if page !in s.pinned then s
    else if page in c.highmem then s.(pinned := s.pinned - {page})
    else s.(pinned := s.pinned - {page}, readonly := s.readonly - {page},
            xen := if c.split && level == PTE then s.xen - {page} else s.xen)
  }

  function PinAll(c: Cfg, s: Paging, vs: seq<Visit>): Paging
    decreases |vs|
  {
    if vs == [] then s else PinAll(c, PinPage(c, s, vs[0].page, vs[0].level), vs[1..])
  }

  function UnpinAll(c: Cfg, s: Paging, vs: seq<Visit>): Paging
    decreases |vs|
  {
    if vs == [] then s else UnpinAll(c, UnpinPage(c, s, vs[0].page, vs[0].level), vs[1..])
  }

  function Pages(vs: seq<Visit>): set<Page> { set v | v in vs :: v.page }

  lemma PagesOfMore(v: Visit, vs: seq<Visit>)
    ensures Pages([v] + vs) == {v.page} + Pages(vs)
  {
    assert forall w :: w in [v] + vs <==> w == v || w in vs;
    assert forall p | p in Pages([v] + vs) :: p in {v.page} + Pages(vs);
    forall p | p in {v.page} + Pages(vs)
      ensures p in Pages([v] + vs)
    {
      if p == v.page {
        assert v in [v] + vs;
      } else {
        var w :| w in vs && w.page == p;
        assert w in [v] + vs;
      }
    }
  }

  /** The pages that are first met as page tables of the lowest level, are not in `seen`, and
      lie in low memory: those that the hypervisor is told of one by one. */
  function Singly(c: Cfg, vs: seq<Visit>, seen: set<Page>): set<Page>
    decreases |vs|
  {
    if vs == [] then {}
    else
      (if vs[0].page !in seen && vs[0].page !in c.highmem && c.split && vs[0].level == PTE then {vs[0].page} else {})
      + Singly(c, vs[1..], seen + {vs[0].page})
  }

  lemma PinSets(pinned: set<Page>, readonly: set<Page>, high: set<Page>, p: Page, rest: set<Page>)
    ensures pinned + {p} + rest == pinned + ({p} + rest)
    ensures p in pinned ==> pinned + {p} == pinned
    ensures readonly + (if p in pinned + high then {} else {p}) + (rest - (pinned + {p}) - high)
         == readonly + (({p} + rest) - pinned - high)
  {
  }

  lemma PinStep(c: Cfg, s: Paging, p: Page, level: Level)
    ensures PinPage(c, s, p, level)
         == s.(pinned := s.pinned + {p},
               readonly := s.readonly + (if p in s.pinned + c.highmem then {} else {p}),
               xen := s.xen + (if p !in s.pinned && p !in c.highmem && c.split && level == PTE then {p} else {}))
  {
    PinSets(s.pinned, s.readonly, c.highmem, p, {});
  }

  lemma {:induction false} PinAllIs(c: Cfg, s: Paging, vs: seq<Visit>)
    ensures PinAll(c, s, vs) == s.(pinned := s.pinned + Pages(vs),
                                   readonly := s.readonly + (Pages(vs) - s.pinned - c.highmem),
                                   xen := s.xen + Singly(c, vs, s.pinned))
    decreases |vs|
  {
    if vs != [] {
      var p, rest := vs[0].page, vs[1..];
      var t := PinPage(c, s, p, vs[0].level);
      PinStep(c, s, p, vs[0].level);
      PinAllIs(c, t, rest);
      assert vs == [vs[0]] + rest;
      PagesOfMore(vs[0], rest);
      PinSets(s.pinned, s.readonly, c.highmem, p, Pages(rest));
      hide Pages, PinPage;
    }
  }

  lemma {:induction false} SinglyIn(c: Cfg, vs: seq<Visit>, seen: set<Page>)
    ensures Singly(c, vs, seen) <= Pages(vs) - seen - c.highmem
    decreases |vs|
  {
    if vs != [] {
      SinglyIn(c, vs[1..], seen + {vs[0].page});
      assert vs == [vs[0]] + vs[1..];
      PagesOfMore(vs[0], vs[1..]);
    }
  }

  lemma UnpinSets(pinned: set<Page>, readonly: set<Page>, high: set<Page>, seen: set<Page>, p: Page, rest: set<Page>)
    requires pinned !! seen && p in pinned + seen
    ensures (pinned - {p}) - rest == pinned - ({p} + rest)
    ensures p in seen ==> pinned - {p} == pinned && seen + {p} == seen
    ensures readonly - (if p in seen + high then {} else {p}) - (rest - (seen + {p}) - high)
         == readonly - (({p} + rest) - seen - high)
  {
  }

  lemma UnpinStep(c: Cfg, s: Paging, seen: set<Page>, p: Page, level: Level)
    requires s.pinned !! seen && p in s.pinned + seen
    ensures UnpinPage(c, s, p, level)
         == s.(pinned := s.pinned - {p},
               readonly := s.readonly - (if p in seen + c.highmem then {} else {p}),
               xen := s.xen - (if p !in seen && p !in c.highmem && c.split && level == PTE then {p} else {}))
  {
    UnpinSets(s.pinned, s.readonly, c.highmem, seen, p, {});
  }

  lemma SetMinusSum(a: set<Page>, b: set<Page>, d: set<Page>)
    ensures a - (b + d) == a - b - d
  {
  }

  /** Unpinning, when `seen` are the pages of the walk that are unpinned already. */
  lemma {:induction false} UnpinAllIs(c: Cfg, s: Paging, vs: seq<Visit>, seen: set<Page>)
    requires s.pinned !! seen && Pages(vs) <= s.pinned + seen
    ensures UnpinAll(c, s, vs) == s.(pinned := s.pinned - Pages(vs),
                                     readonly := s.readonly - (Pages(vs) - seen - c.highmem),
                                     xen := s.xen - Singly(c, vs, seen))
    decreases |vs|
  {
    if vs != [] {
      var p, rest := vs[0].page, vs[1..];
      var t := UnpinPage(c, s, p, vs[0].level);
      assert vs == [vs[0]] + rest;
      PagesOfMore(vs[0], rest);
      UnpinStep(c, s, seen, p, vs[0].level);
      hide Pages, UnpinPage;
      assert Pages(rest) <= t.pinned + (seen + {p});
      UnpinAllIs(c, t, rest, seen + {p});
      UnpinSets(s.pinned, s.readonly, c.highmem, seen, p, Pages(rest));
      SetMinusSum(s.xen, if p !in seen && p !in c.highmem && c.split && vs[0].level == PTE then {p} else {},
                  Singly(c, rest, seen + {p}));
    }
  }

  // ------------------------------------------------------------------- the operations

  function Extra(s: Paging, pgd: Page): set<Page> { if pgd in s.extra then {s.extra[pgd]} else {} }

  /** Level of the second page of a directory. */
  function ExtraLevel(c: Cfg): Level { if c.is64 then PGD else PMD }

  /** What the hypervisor is told to pin for a directory. */
  function TopPins(c: Cfg, s: Paging, pgd: Page): set<Page> { {pgd} + if c.is64 then Extra(s, pgd) else {} }

  /** __xen_pgd_pin. */
  function PinDir(c: Cfg, s: Paging, pgd: Page): Paging
  {
    var t := PinAll(c, s, Visits(c, s.tables, pgd));
    var u := if pgd in s.extra then PinPage(c, t, s.extra[pgd], ExtraLevel(c)) else t;
    u.(xen := u.xen + TopPins(c, s, pgd))
  }

  /** __xen_pgd_unpin. */
  function UnpinDir(c: Cfg, s: Paging, pgd: Page): Paging
  {
    var t := s.(xen := s.xen - TopPins(c, s, pgd));
    var u := if pgd in s.extra then UnpinPage(c, t, s.extra[pgd], ExtraLevel(c)) else t;
    UnpinAll(c, u, Visits(c, s.tables, pgd))
  }

  /** xen_alloc_ptpage: a table page that is going to be attached below pgd. */
  function AllocPage(c: Cfg, s: Paging, pgd: Page, page: Page, level: Level): Paging
  {
    if pgd !in s.pinned then s
    else if page in c.highmem then s.(pinned := s.pinned + {page})
    else s.(pinned := s.pinned + {page}, readonly := s.readonly + {page},
            xen := if c.split && level == PTE then s.xen + {page} else s.xen)
  }

  /** xen_release_ptpage. */
  function ReleasePage(c: Cfg, s: Paging, page: Page, level: Level): Paging
  {
    if page !in s.pinned then s
    else if page in c.highmem then s.(pinned := s.pinned - {page})
    else s.(pinned := s.pinned - {page}, readonly := s.readonly - {page},
            xen := if c.split && level == PTE then s.xen - {page} else s.xen)
  }

  /** Everything that belongs to a directory: the pages that the walk reaches, and its second
      page. */
  function Owned(c: Cfg, s: Paging, pgd: Page): set<Page> { Pages(Visits(c, s.tables, pgd)) + Extra(s, pgd) }

  /** What holds between operations: a lowmem page is read-only exactly when it is marked; a
      directory and everything that belongs to it are marked together, and together with the
      directory's pin by the hypervisor; directories own nothing in common. */
  ghost predicate Whole(c: Cfg, s: Paging)
  {
    && s.readonly == s.pinned - c.highmem
    && (forall r, p | r in s.roots && p in Owned(c, s, r) :: p in s.pinned <==> r in s.pinned)
    && (forall r | r in s.roots :: r in s.xen <==> r in s.pinned)
    && forall r, q, p | r in s.roots && q in s.roots && p in Owned(c, s, r) && p in Owned(c, s, q) :: r == q
  }

  /** A tree has no page at two levels. */
  ghost predicate Levels(c: Cfg, m: Tables, r: Page)
  {
    forall v, w | v in Visits(c, m, r) && w in Visits(c, m, r) && v.page == w.page :: v.level == w.level
  }

  /** With split locks the hypervisor pins the lowmem page tables of the lowest level one by
      one; it does so for exactly those of the marked trees. */
  ghost predicate Leaves(c: Cfg, s: Paging, r: Page)
  {
    && Levels(c, s.tables, r)
    && Extra(s, r) !! Pages(Visits(c, s.tables, r))
    && forall v | v in Visits(c, s.tables, r) && v.level == PTE && c.split && v.page !in c.highmem ::
         v.page in s.xen <==> r in s.pinned
  }

  /** The invariant. */
  ghost predicate Inv(c: Cfg, s: Paging)
  {
    Whole(c, s) && forall r | r in s.roots :: Leaves(c, s, r)
  }

  lemma RootIsOwned(c: Cfg, s: Paging, pgd: Page)
    requires !c.translated
    ensures pgd in Owned(c, s, pgd)
  {
    hide PgdVisits;
    var vs := Visits(c, s.tables, pgd);
    assert vs[|vs| - 1] in vs;
  }

  /** Pinning a directory marks what belongs to it, and nothing else. */
  lemma PinDirIs(c: Cfg, s: Paging, pgd: Page)
    ensures var t := PinDir(c, s, pgd);
            && t == s.(pinned := t.pinned, readonly := t.readonly, xen := t.xen)
            && t.pinned == s.pinned + Owned(c, s, pgd)
            && t.readonly == s.readonly + (Owned(c, s, pgd) - s.pinned - c.highmem)
            && t.xen == s.xen + Singly(c, Visits(c, s.tables, pgd), s.pinned) + TopPins(c, s, pgd)
  {
    hide Visits, PinAll, Singly, Pages;
    var vs := Visits(c, s.tables, pgd);
    PinAllIs(c, s, vs);
    if pgd in s.extra {
      PinStep(c, PinAll(c, s, vs), s.extra[pgd], ExtraLevel(c));
    }
    hide PinPage;
  }

  lemma UnpinDirIs(c: Cfg, s: Paging, pgd: Page)
    ensures var t := UnpinDir(c, s, pgd);
            && t == s.(pinned := t.pinned, readonly := t.readonly, xen := t.xen)
            && t.pinned == s.pinned - Owned(c, s, pgd)
            && t.readonly == s.readonly - (Owned(c, s, pgd) * s.pinned - c.highmem)
            && t.xen == s.xen - TopPins(c, s, pgd)
                        - Singly(c, Visits(c, s.tables, pgd),
                                 Pages(Visits(c, s.tables, pgd)) - (s.pinned - Extra(s, pgd)))
  {
    hide Visits, UnpinAll, Singly, Pages;
    var vs := Visits(c, s.tables, pgd);
    var t := s.(xen := s.xen - TopPins(c, s, pgd));
    var u := if pgd in s.extra then UnpinPage(c, t, s.extra[pgd], ExtraLevel(c)) else t;
    assert u.pinned == s.pinned - Extra(s, pgd);
    UnpinAllIs(c, u, vs, Pages(vs) - u.pinned);
  }

  lemma SinglyOwned(c: Cfg, s: Paging, pgd: Page, seen: set<Page>)
    requires !c.translated
    ensures Singly(c, Visits(c, s.tables, pgd), seen) + TopPins(c, s, pgd) <= Owned(c, s, pgd)
  {
    hide Visits, Singly, Pages;
    SinglyIn(c, Visits(c, s.tables, pgd), seen);
    RootIsOwned(c, s, pgd);
  }

  /** Pinning keeps trees marked as a whole, and marks the directory. */
  lemma PinKeepsWhole(c: Cfg, s: Paging, pgd: Page)
    requires !c.translated && Whole(c, s) && pgd in s.roots
    ensures Whole(c, PinDir(c, s, pgd)) && pgd in PinDir(c, s, pgd).pinned
  {
    var t := PinDir(c, s, pgd);
    PinDirIs(c, s, pgd);
    SinglyOwned(c, s, pgd, s.pinned);
    assert forall r :: Owned(c, t, r) == Owned(c, s, r);
    forall r | r in s.roots
      ensures r in Owned(c, s, r)
    {
      RootIsOwned(c, s, r);
    }
    hide Owned, PinDir, Singly, Visits;
  }

  /** Unpinning keeps trees marked as a whole, and clears the directory. */
  lemma UnpinKeepsWhole(c: Cfg, s: Paging, pgd: Page)
    requires !c.translated && Whole(c, s) && pgd in s.roots
    ensures Whole(c, UnpinDir(c, s, pgd)) && pgd !in UnpinDir(c, s, pgd).pinned
  {
    var t := UnpinDir(c, s, pgd);
    UnpinDirIs(c, s, pgd);
    SinglyOwned(c, s, pgd, Pages(Visits(c, s.tables, pgd)) - (s.pinned - Extra(s, pgd)));
    assert forall r :: Owned(c, t, r) == Owned(c, s, r);
    forall r | r in s.roots
      ensures r in Owned(c, s, r)
    {
      RootIsOwned(c, s, r);
    }
    hide Owned, UnpinDir, Singly, Visits;
  }

  lemma {:induction false} SinglyIgnores(c: Cfg, vs: seq<Visit>, seen: set<Page>, seen': set<Page>)
    requires forall p | p in Pages(vs) :: p in seen <==> p in seen'
    ensures Singly(c, vs, seen) == Singly(c, vs, seen')
    decreases |vs|
  {
    if vs != [] {
      assert vs == [vs[0]] + vs[1..];
      PagesOfMore(vs[0], vs[1..]);
      SinglyIgnores(c, vs[1..], seen + {vs[0].page}, seen' + {vs[0].page});
    }
  }

  /** Pinning and then unpinning a directory none of whose pages is marked, and whose second
      page is not part of its own tree, changes nothing. */
  lemma PinThenUnpin(c: Cfg, s: Paging, pgd: Page)
    requires !c.translated
    requires Owned(c, s, pgd) !! s.pinned && Owned(c, s, pgd) !! s.readonly && Owned(c, s, pgd) !! s.xen
    requires Extra(s, pgd) !! Pages(Visits(c, s.tables, pgd))
    ensures UnpinDir(c, PinDir(c, s, pgd), pgd) == s
  {
    var t := PinDir(c, s, pgd);
    var vs := Visits(c, s.tables, pgd);
    PinDirIs(c, s, pgd);
    UnpinDirIs(c, t, pgd);
    SinglyOwned(c, s, pgd, s.pinned);
    SinglyIgnores(c, vs, s.pinned, Pages(vs) - (t.pinned - Extra(s, pgd)));
    hide PinDir, UnpinDir, Singly, Visits, Pages;
  }

  // ------------------------------------------------------------------ tables that change

  /** An entry of some table leads to the page. */
  predicate Referenced(m: Tables, page: Page)
  {
    exists t, i | t in m && 0 <= i < |m[t]| :: m[t][i] == Some(page)
  }

  function SetEntry(m: Tables, t: Page, i: nat, e: Option<Page>): Tables
    requires t in m && i < |m[t]|
  {
    m[t := m[t][i := e]]
  }

  /** A new page with n empty entries, attached at entry i of table t; a page table of the
      lowest level has no entries that the walk looks at. */
  function Attach(m: Tables, t: Page, i: nat, page: Page, level: Level, n: nat): Tables
    requires t in m && i < |m[t]|
  {
    var m' := SetEntry(m, t, i, Some(page));
    if level == PTE then m' else m'[page := seq(n, _ => None)]
  }

  lemma AttachedEntries(m: Tables, t: Page, i: nat, page: Page, level: Level, n: nat, p: Page)
    requires t in m && i < |m[t]| && page !in m
    ensures var m' := Attach(m, t, i, page, level, n);
            && (p == page ==> forall x | 0 <= x < |Entries(m', p)| :: Entries(m', p)[x] == None)
            && (p != page && p != t ==> Entries(m', p) == Entries(m, p))
            && (p == t ==> Entries(m', p) == Entries(m, p)[i := Some(page)])
  {
  }

  lemma At1Attach(c: Cfg, m: Tables, t: Page, i: nat, page: Page, level: Level, n: nat, r: Page, x: nat)
    requires t in m && i < |m[t]| && page !in m && r != page
    ensures var e := At1(c, Attach(m, t, i, page, level, n), r, x);
            e == At1(c, m, r, x) || (e == Some(page) && r == t)
  {
    AttachedEntries(m, t, i, page, level, n, r);
    hide Attach, Entries;
  }

  lemma At2Attach(c: Cfg, m: Tables, t: Page, i: nat, page: Page, level: Level, n: nat, r: Page, x: nat, y: nat)
    requires t in m && i < |m[t]| && page !in m && r != page && !Referenced(m, page)
    ensures var m' := Attach(m, t, i, page, level, n);
            var e := At2(c, m', r, x, y);
            || e == At2(c, m, r, x, y) || e == None
            || (e == Some(page) && (r == t || (!c.foldPud && At1(c, m, r, x) == Some(t))))
  {
    var m' := Attach(m, t, i, page, level, n);
    At1Attach(c, m, t, i, page, level, n, r, x);
    AttachedEntries(m, t, i, page, level, n, page);
    if At1(c, m, r, x).Some? {
      AttachedEntries(m, t, i, page, level, n, At1(c, m, r, x).value);
    }
    hide Attach, Entries, At1;
  }

  lemma At3Attach(c: Cfg, m: Tables, t: Page, i: nat, page: Page, level: Level, n: nat, r: Page, x: nat, y: nat, z: nat)
    requires t in m && i < |m[t]| && page !in m && r != page && !Referenced(m, page)
    ensures var m' := Attach(m, t, i, page, level, n);
            var e := At3(c, m', r, x, y, z);
            || e == At3(c, m, r, x, y, z) || e == None
            || (e == Some(page) && (r == t || (!c.foldPud && At1(c, m, r, x) == Some(t))
                                    || (!c.foldPmd && At2(c, m, r, x, y) == Some(t))))
  {
    var m' := Attach(m, t, i, page, level, n);
    At2Attach(c, m, t, i, page, level, n, r, x, y);
    AttachedEntries(m, t, i, page, level, n, page);
    if At2(c, m, r, x, y).Some? {
      AttachedEntries(m, t, i, page, level, n, At2(c, m, r, x, y).value);
    }
    hide Attach, Entries, At1, At2;
  }

  /** The level of what an entry of a table leads to. */
  function LevelBelow(c: Cfg, level: Level): Level
  {
    match level
    case PGD => if !c.foldPud then PUD else if !c.foldPmd then PMD else PTE
    case PUD => if !c.foldPmd then PMD else PTE
    case _ => PTE
  }

  /** Attaching a new page adds at most that page to what a walk reaches, and only for a
      directory that reaches the table it is attached to. */
  lemma AttachReaches(c: Cfg, m: Tables, t: Page, i: nat, page: Page, level: Level, n: nat, r: Page, v: Visit)
    requires !c.translated && t in m && i < |m[t]| && page !in m && r != page && !Referenced(m, page)
    requires v in Visits(c, Attach(m, t, i, page, level, n), r)
    ensures v in Visits(c, m, r)
            || (v.page == page && exists w :: w in Visits(c, m, r) && w.page == t && v.level == LevelBelow(c, w.level))
  {
    var m' := Attach(m, t, i, page, level, n);
    hide Visits, Attach, Entries, At1, At2, At3;
    VisitsExactly(c, m', r, v);
    VisitsExactly(c, m, r, v);
    VisitsExactly(c, m, r, Visit(PGD, r, 0, 0, 0));
    VisitsExactly(c, m, r, Visit(PUD, t, v.i, 0, 0));
    VisitsExactly(c, m, r, Visit(PMD, t, v.i, v.j, 0));
    At1Attach(c, m, t, i, page, level, n, r, v.i);
    At2Attach(c, m, t, i, page, level, n, r, v.i, v.j);
    At3Attach(c, m, t, i, page, level, n, r, v.i, v.j, v.k);
  }

  /** Taking an entry away takes pages away from what a walk reaches, and adds none. */
  lemma DetachAt(c: Cfg, m: Tables, t: Page, i: nat, r: Page, x: nat, y: nat, z: nat)
    requires t in m && i < |m[t]|
    ensures var m' := SetEntry(m, t, i, None);
            && At1(c, m', r, x) in {None, At1(c, m, r, x)}
            && At2(c, m', r, x, y) in {None, At2(c, m, r, x, y)}
            && At3(c, m', r, x, y, z) in {None, At3(c, m, r, x, y, z)}
  {
  }

  lemma DetachReaches(c: Cfg, m: Tables, t: Page, i: nat, r: Page, v: Visit)
    requires !c.translated && t in m && i < |m[t]|
    requires v in Visits(c, SetEntry(m, t, i, None), r)
    ensures v in Visits(c, m, r)
  {
    hide Visits, At1, At2, At3, SetEntry;
    VisitsExactly(c, SetEntry(m, t, i, None), r, v);
    VisitsExactly(c, m, r, v);
    DetachAt(c, m, t, i, r, v.i, v.j, v.k);
  }

  /** A walk reaches only the directory and pages that some entry leads to. */
  lemma ReachedIsReferenced(c: Cfg, m: Tables, r: Page, v: Visit)
    requires !c.translated && v in Visits(c, m, r)
    ensures v.page == r || Referenced(m, v.page)
  {
    VisitsExactly(c, m, r, v);
    hide Visits, Referenced;
    EntryIsReference(c, m, r, v.i, v.j, v.k);
  }

  lemma EntryIsReference(c: Cfg, m: Tables, r: Page, x: nat, y: nat, z: nat)
    ensures At1(c, m, r, x).Some? ==> Referenced(m, At1(c, m, r, x).value)
    ensures At2(c, m, r, x, y).Some? ==> Referenced(m, At2(c, m, r, x, y).value)
    ensures At3(c, m, r, x, y, z).Some? ==> Referenced(m, At3(c, m, r, x, y, z).value)
  {
  }

  // ------------------------------------------------------------------------------ runs

  datatype Event =
    | Pin(pgd: Page)
    | Unpin(pgd: Page)
    | AllocAttach(pgd: Page, table: Page, at: nat, page: Page, level: Level, entries: nat)
    | DetachRelease(table: Page, at: nat, level: Level)

  /** What the rest of the kernel sees to: a new page is not in use, and is attached to a table
      of the directory it was allocated for; a page is released when nothing refers to it. */
  ghost predicate Enabled(c: Cfg, s: Paging, e: Event)
  {
    match e
    case Pin(pgd) => pgd in s.roots
    case Unpin(pgd) => pgd in s.roots
    case AllocAttach(pgd, table, at, page, level, entries) =>
      && pgd in s.roots
      && (exists w :: w in Visits(c, s.tables, pgd) && w.page == table && level == LevelBelow(c, w.level))
      && table in s.tables && at < |s.tables[table]|
      && page !in s.tables && page !in s.roots && page !in s.pinned && page !in s.xen
      && !Referenced(s.tables, page) && (forall r | r in s.roots :: page !in Extra(s, r))
    case DetachRelease(table, at, level) =>
      && table in s.tables && at < |s.tables[table]| && s.tables[table][at].Some?
      && var page := s.tables[table][at].value;
         && page !in s.roots && (forall r | r in s.roots :: page !in Extra(s, r))
         && !Referenced(SetEntry(s.tables, table, at, None), page)
  }

  ghost function Next(c: Cfg, s: Paging, e: Event): Paging
    requires Enabled(c, s, e)
  {
    match e
    case Pin(pgd) => PinDir(c, s, pgd)
    case Unpin(pgd) => UnpinDir(c, s, pgd)
    case AllocAttach(pgd, table, at, page, level, entries) =>
      AllocPage(c, s, pgd, page, level).(tables := Attach(s.tables, table, at, page, level, entries))
    case DetachRelease(table, at, level) =>
      ReleasePage(c, s.(tables := SetEntry(s.tables, table, at, None)), s.tables[table][at].value, level)
  }

  lemma NotOwned(c: Cfg, s: Paging, r: Page, page: Page)
    requires !c.translated && page != r && !Referenced(s.tables, page) && page !in Extra(s, r)
    ensures page !in Owned(c, s, r)
  {
    hide Visits, Referenced;
    var vs := Visits(c, s.tables, r);
    forall v | v in vs
      ensures v.page != page
    {
      ReachedIsReferenced(c, s.tables, r, v);
    }
  }

  /** What a directory owns after a page was attached. */
  lemma OwnedAfterAttach(c: Cfg, s: Paging, t: Paging, e: Event, r: Page, p: Page)
    requires !c.translated && e.AllocAttach? && Whole(c, s) && Enabled(c, s, e) && t == Next(c, s, e) && r in s.roots
    requires p in Owned(c, t, r)
    ensures p in Owned(c, s, r) || (p == e.page && r == e.pgd)
  {
    hide Visits, Attach, Referenced;
    if p !in Extra(s, r) {
      var v :| v in Visits(c, t.tables, r) && v.page == p;
      AttachReaches(c, s.tables, e.table, e.at, e.page, e.level, e.entries, r, v);
      if v !in Visits(c, s.tables, r) {
        assert e.table in Owned(c, s, r) && e.table in Owned(c, s, e.pgd);
      }
    }
  }

  lemma AttachKeepsWhole(c: Cfg, s: Paging, e: Event)
    requires !c.translated && e.AllocAttach? && Whole(c, s) && Enabled(c, s, e)
    ensures Whole(c, Next(c, s, e))
  {
    var t := Next(c, s, e);
    AttachResult(c, s, e);
    forall r | r in s.roots
      ensures r in Owned(c, s, r) && e.page !in Owned(c, s, r)
    {
      RootIsOwned(c, s, r);
      NotOwned(c, s, r, e.page);
    }
    forall r, p | r in s.roots && p in Owned(c, t, r)
      ensures p in Owned(c, s, r) || (p == e.page && r == e.pgd)
    {
      OwnedAfterAttach(c, s, t, e, r, p);
    }
    hide Owned, Attach, Visits, Referenced, Next, Enabled;
  }

  lemma DetachKeepsWhole(c: Cfg, s: Paging, e: Event)
    requires !c.translated && e.DetachRelease? && Whole(c, s) && Enabled(c, s, e)
    ensures Whole(c, Next(c, s, e))
  {
    var t := Next(c, s, e);
    var page := s.tables[e.table][e.at].value;
    DetachResult(c, s, e);
    forall r | r in s.roots
      ensures r in Owned(c, s, r) && page !in Owned(c, t, r) && r != page
    {
      RootIsOwned(c, s, r);
      NotOwned(c, t, r, page);
    }
    forall r, p | r in s.roots && p in Owned(c, t, r)
      ensures p in Owned(c, s, r)
    {
      OwnedAfterDetach(c, s, t, e, r, p);
    }
    hide Owned, SetEntry, Visits, Referenced, Next, Enabled;
  }

  lemma OwnedAfterDetach(c: Cfg, s: Paging, t: Paging, e: Event, r: Page, p: Page)
    requires !c.translated && e.DetachRelease? && Enabled(c, s, e) && t == Next(c, s, e)
    requires p in Owned(c, t, r)
    ensures p in Owned(c, s, r)
  {
    hide Visits, SetEntry, Referenced;
    if p !in Extra(s, r) {
      var v :| v in Visits(c, t.tables, r) && v.page == p;
      DetachReaches(c, s.tables, e.table, e.at, r, v);
    }
  }

  // ------------------------------------------------------- the lowest level, one by one

  lemma {:induction false} SinglyHas(c: Cfg, vs: seq<Visit>, seen: set<Page>, v: Visit)
    requires v in vs && v.level == PTE && c.split && v.page !in c.highmem && v.page !in seen
    requires forall w | w in vs && w.page == v.page :: w.level == PTE
    ensures v.page in Singly(c, vs, seen)
    decreases |vs|
  {
    assert vs == [vs[0]] + vs[1..];
    if vs[0].page != v.page {
      assert v in vs[1..];
      SinglyHas(c, vs[1..], seen + {vs[0].page}, v);
    }
  }

  lemma PinKeepsLeaves(c: Cfg, s: Paging, pgd: Page, r: Page)
    requires !c.translated && Inv(c, s) && pgd in s.roots && r in s.roots
    ensures Leaves(c, PinDir(c, s, pgd), r)
  {
    var t, vs := PinDir(c, s, pgd), Visits(c, s.tables, r);
    PinDirIs(c, s, pgd);
    SinglyOwned(c, s, pgd, s.pinned);
    RootIsOwned(c, s, r);
    hide PinDir, Visits, Singly;
    assert Leaves(c, s, r);
    forall v | v in vs && v.level == PTE && c.split && v.page !in c.highmem
      ensures v.page in t.xen <==> r in t.pinned
    {
      assert v.page in Owned(c, s, r);
      if r == pgd && r !in s.pinned {
        SinglyHas(c, vs, s.pinned, v);
      }
    }
  }

  lemma UnpinKeepsLeaves(c: Cfg, s: Paging, pgd: Page, r: Page)
    requires !c.translated && Inv(c, s) && pgd in s.roots && r in s.roots
    ensures Leaves(c, UnpinDir(c, s, pgd), r)
  {
    var t, vs := UnpinDir(c, s, pgd), Visits(c, s.tables, r);
    var seen := Pages(Visits(c, s.tables, pgd)) - (s.pinned - Extra(s, pgd));
    UnpinDirIs(c, s, pgd);
    SinglyOwned(c, s, pgd, seen);
    RootIsOwned(c, s, r);
    hide UnpinDir, Visits, Singly;
    assert Leaves(c, s, r);
    forall v | v in vs && v.level == PTE && c.split && v.page !in c.highmem
      ensures v.page in t.xen <==> r in t.pinned
    {
      assert v.page in Owned(c, s, r);
      if r == pgd && r in s.pinned {
        SinglyHas(c, vs, seen, v);
      }
    }
  }

  lemma AttachResult(c: Cfg, s: Paging, e: Event)
    requires e.AllocAttach? && Enabled(c, s, e)
    ensures var t := Next(c, s, e);
            && t.roots == s.roots && t.extra == s.extra
            && t.tables == Attach(s.tables, e.table, e.at, e.page, e.level, e.entries)
            && t.pinned == s.pinned + (if e.pgd in s.pinned then {e.page} else {})
            && t.readonly == s.readonly + (if e.pgd in s.pinned && e.page !in c.highmem then {e.page} else {})
            && t.xen == s.xen + (if e.pgd in s.pinned && e.page !in c.highmem && c.split && e.level == PTE
                                 then {e.page} else {})
  {
    hide Visits, Attach, Referenced;
  }

  /** A visit after the attaching is an old one, or that of the new page. */
  lemma AttachVisit(c: Cfg, s: Paging, e: Event, r: Page, v: Visit)
    requires !c.translated && e.AllocAttach? && Inv(c, s) && Enabled(c, s, e) && r in s.roots
    requires v in Visits(c, Next(c, s, e).tables, r)
    ensures if v.page == e.page then r == e.pgd && v.level == e.level else v in Visits(c, s.tables, r)
  {
    AttachResult(c, s, e);
    NotOwned(c, s, r, e.page);
    hide Visits, Attach, Referenced, Next, Inv;
    AttachReaches(c, s.tables, e.table, e.at, e.page, e.level, e.entries, r, v);
    if v in Visits(c, s.tables, r) {
      assert v.page in Owned(c, s, r);
    } else {
      AttachLevel(c, s, e, r, v);
    }
  }

  lemma AttachKeepsLeaves(c: Cfg, s: Paging, e: Event, r: Page)
    requires !c.translated && e.AllocAttach? && Inv(c, s) && Enabled(c, s, e) && r in s.roots
    ensures Leaves(c, Next(c, s, e), r)
  {
    hide Visits, Attach, Referenced, Next, Whole;
    var t := Next(c, s, e);
    AttachResult(c, s, e);
    assert Leaves(c, s, r);
    forall v | v in Visits(c, t.tables, r)
      ensures if v.page == e.page then r == e.pgd && v.level == e.level else v in Visits(c, s.tables, r)
    {
      AttachVisit(c, s, e, r, v);
    }
  }

  lemma AttachLevel(c: Cfg, s: Paging, e: Event, r: Page, v: Visit)
    requires !c.translated && e.AllocAttach? && Inv(c, s) && Enabled(c, s, e) && r in s.roots
    requires exists w :: w in Visits(c, s.tables, r) && w.page == e.table && v.level == LevelBelow(c, w.level)
    ensures r == e.pgd && v.level == e.level
  {
    hide Visits, Referenced;
    var w :| w in Visits(c, s.tables, r) && w.page == e.table && v.level == LevelBelow(c, w.level);
    var x :| x in Visits(c, s.tables, e.pgd) && x.page == e.table && e.level == LevelBelow(c, x.level);
    assert e.table in Owned(c, s, r) && e.table in Owned(c, s, e.pgd);
    assert Leaves(c, s, r);
  }

  lemma DetachResult(c: Cfg, s: Paging, e: Event)
    requires e.DetachRelease? && Enabled(c, s, e) && s.readonly == s.pinned - c.highmem
    ensures var t, page := Next(c, s, e), s.tables[e.table][e.at].value;
            && t.roots == s.roots && t.extra == s.extra
            && t.tables == SetEntry(s.tables, e.table, e.at, None)
            && t.pinned == s.pinned - {page} && t.readonly == s.readonly - {page}
            && s.xen - {page} <= t.xen <= s.xen
  {
    hide Visits, SetEntry, Referenced;
  }

  /** A visit after the detaching is an old one, and not that of the released page. */
  lemma DetachVisit(c: Cfg, s: Paging, e: Event, r: Page, v: Visit)
    requires !c.translated && e.DetachRelease? && Inv(c, s) && Enabled(c, s, e) && r in s.roots
    requires v in Visits(c, Next(c, s, e).tables, r)
    ensures v in Visits(c, s.tables, r) && v.page != s.tables[e.table][e.at].value
  {
    var page := s.tables[e.table][e.at].value;
    DetachResult(c, s, e);
    NotOwned(c, Next(c, s, e), r, page);
    hide Visits, SetEntry, Referenced, Next, Inv;
    DetachReaches(c, s.tables, e.table, e.at, r, v);
    assert v.page in Owned(c, Next(c, s, e), r);
  }

  lemma DetachKeepsLeaves(c: Cfg, s: Paging, e: Event, r: Page)
    requires !c.translated && e.DetachRelease? && Inv(c, s) && Enabled(c, s, e) && r in s.roots
    ensures Leaves(c, Next(c, s, e), r)
  {
    var t, page := Next(c, s, e), s.tables[e.table][e.at].value;
    DetachResult(c, s, e);
    assert Leaves(c, s, r);
    forall v | v in Visits(c, t.tables, r)
      ensures v in Visits(c, s.tables, r) && v.page != page
    {
      DetachVisit(c, s, e, r, v);
    }
    hide Visits, SetEntry, Referenced, Next, Inv;
  }

  /** The states of a run. */
  ghost predicate IsRun(c: Cfg, s: Paging, events: seq<Event>)
    decreases |events|
  {
    events == [] || (Enabled(c, s, events[0]) && IsRun(c, Next(c, s, events[0]), events[1..]))
  }

  ghost function After(c: Cfg, s: Paging, events: seq<Event>): Paging
    requires IsRun(c, s, events)
    decreases |events|
  {
    if events == [] then s else After(c, Next(c, s, events[0]), events[1..])
  }

  lemma NextKeepsWhole(c: Cfg, s: Paging, e: Event)
    requires !c.translated && Whole(c, s) && Enabled(c, s, e)
    ensures Whole(c, Next(c, s, e)) && Next(c, s, e).roots == s.roots
  {
    match e {
      case Pin(pgd) => PinKeepsWhole(c, s, pgd); PinDirIs(c, s, pgd);
      case Unpin(pgd) => UnpinKeepsWhole(c, s, pgd); UnpinDirIs(c, s, pgd);
      case AllocAttach(_, _, _, _, _, _) => AttachKeepsWhole(c, s, e);
      case DetachRelease(_, _, _) => DetachKeepsWhole(c, s, e);
    }
    hide Whole, PinDir, UnpinDir, Visits;
  }

  /** Every operation keeps the invariant. */
  lemma NextKeeps(c: Cfg, s: Paging, e: Event)
    requires !c.translated && Inv(c, s) && Enabled(c, s, e)
    ensures Inv(c, Next(c, s, e))
  {
    NextKeepsWhole(c, s, e);
    hide Whole, Leaves, PinDir, UnpinDir, Visits;
    forall r | r in s.roots
      ensures Leaves(c, Next(c, s, e), r)
    {
      match e {
        case Pin(pgd) => PinKeepsLeaves(c, s, pgd, r);
        case Unpin(pgd) => UnpinKeepsLeaves(c, s, pgd, r);
        case AllocAttach(_, _, _, _, _, _) => AttachKeepsLeaves(c, s, e, r);
        case DetachRelease(_, _, _) => DetachKeepsLeaves(c, s, e, r);
      }
    }
  }

  /** What the invariant says of the pages that a walk reaches. */
  lemma InvMeans(c: Cfg, s: Paging, r: Page, v: Visit)
    requires Inv(c, s) && r in s.roots && v in Visits(c, s.tables, r)
    ensures v.page in s.pinned <==> r in s.pinned
    ensures v.page in s.readonly <==> r in s.pinned && v.page !in c.highmem
    ensures v.level == PTE && c.split && v.page !in c.highmem ==> (v.page in s.xen <==> r in s.pinned)
  {
    hide Visits;
    assert Leaves(c, s, r);
    assert v.page in Owned(c, s, r);
  }

  /** In every run, every page in the tree of a marked directory is marked, is read-only if it
      lies in low memory, and is pinned by the hypervisor if it is a lowmem page table of the
      lowest level and locks are split; of an unmarked directory, no page is. */
  lemma {:induction false} RunKeeps(c: Cfg, s: Paging, events: seq<Event>)
    requires !c.translated && Inv(c, s) && IsRun(c, s, events)
    ensures var t := After(c, s, events);
            && Inv(c, t)
            && forall r, v | r in t.roots && v in Visits(c, t.tables, r) ::
                 && (v.page in t.pinned <==> r in t.pinned)
                 && (v.page in t.readonly <==> r in t.pinned && v.page !in c.highmem)
                 && (v.level == PTE && c.split && v.page !in c.highmem ==> (v.page in t.xen <==> r in t.pinned))
    decreases |events|
  {
    hide Visits, Inv, Enabled, Next;
    if events == [] {
      forall r, v | r in s.roots && v in Visits(c, s.tables, r)
        ensures && (v.page in s.pinned <==> r in s.pinned)
                && (v.page in s.readonly <==> r in s.pinned && v.page !in c.highmem)
                && (v.level == PTE && c.split && v.page !in c.highmem ==> (v.page in s.xen <==> r in s.pinned))
      {
        InvMeans(c, s, r, v);
      }
    } else {
      NextKeeps(c, s, events[0]);
      RunKeeps(c, Next(c, s, events[0]), events[1..]);
    }
  }

  // ------------------------------------------------------------------------- the code

  lemma {:induction false} PinAllConcat(c: Cfg, s: Paging, a: seq<Visit>, b: seq<Visit>)
    ensures PinAll(c, s, a + b) == PinAll(c, PinAll(c, s, a), b)
    decreases |a|
  {
    if a == [] {
      assert a + b == b;
    } else {
      assert (a + b)[1..] == a[1..] + b;
      PinAllConcat(c, PinPage(c, s, a[0].page, a[0].level), a[1..], b);
    }
  }

  lemma {:induction false} UnpinAllConcat(c: Cfg, s: Paging, a: seq<Visit>, b: seq<Visit>)
    ensures UnpinAll(c, s, a + b) == UnpinAll(c, UnpinAll(c, s, a), b)
    decreases |a|
  {
    if a == [] {
      assert a + b == b;
    } else {
      assert (a + b)[1..] == a[1..] + b;
      UnpinAllConcat(c, UnpinPage(c, s, a[0].page, a[0].level), a[1..], b);
    }
  }

  /** xen_pin_page or xen_unpin_page, on all of vs. */
  function CallAll(c: Cfg, pin: bool, s: Paging, vs: seq<Visit>): Paging
  {
    if pin then PinAll(c, s, vs) else UnpinAll(c, s, vs)
  }

  lemma CallConcat(c: Cfg, pin: bool, s: Paging, a: seq<Visit>, b: seq<Visit>)
    ensures CallAll(c, pin, s, a + b) == CallAll(c, pin, CallAll(c, pin, s, a), b)
  {
    PinAllConcat(c, s, a, b);
    UnpinAllConcat(c, s, a, b);
  }

  lemma CallOne(c: Cfg, pin: bool, s: Paging, v: Visit)
    ensures CallAll(c, pin, s, [v]) == if pin then PinPage(c, s, v.page, v.level) else UnpinPage(c, s, v.page, v.level)
  {
    assert [v][1..] == [];
    assert PinAll(c, s, [v]) == PinAll(c, PinPage(c, s, v.page, v.level), []);
    assert UnpinAll(c, s, [v]) == UnpinAll(c, UnpinPage(c, s, v.page, v.level), []);
  }

  lemma CallNone(c: Cfg, pin: bool, s: Paging)
    ensures CallAll(c, pin, s, []) == s
  {
  }

  /** Whether a page was pinned on the way that the kernel may have mapped for a while. */
  predicate Flushes(c: Cfg, before: set<Page>, after: set<Page>) { (after - before) * c.highmem != {} }

  /** Some calls of one callback, and the results of all of them ORed together. */
  predicate Called(c: Cfg, pin: bool, before: set<Page>, after: set<Page>, flush: bool)
  {
    (if pin then before <= after else after <= before) && flush == Flushes(c, before, after)
  }

  lemma CalledTwice(c: Cfg, pin: bool, a: set<Page>, b: set<Page>, d: set<Page>, f: bool, g: bool)
    requires Called(c, pin, a, b, f) && Called(c, pin, b, d, g)
    ensures Called(c, pin, a, d, f || g)
  {
    if pin {
      assert (d - a) * c.highmem == (b - a) * c.highmem + (d - b) * c.highmem;
    } else {
      assert (d - a) * c.highmem == {};
    }
  }

  lemma CalledNot(c: Cfg, pin: bool, a: set<Page>)
    ensures Called(c, pin, a, a, false)
  {
  }

  /** The walk asks for a flush exactly when one of the pages it visits was not pinned and is
      in high memory. */
  lemma FlushExactly(c: Cfg, s: Paging, vs: seq<Visit>)
    ensures Flushes(c, s.pinned, PinAll(c, s, vs).pinned)
            <==> exists v :: v in vs && v.page !in s.pinned && v.page in c.highmem
  {
    PinAllIs(c, s, vs);
    var newly := (Pages(vs) - s.pinned) * c.highmem;
    assert (s.pinned + Pages(vs) - s.pinned) * c.highmem == newly;
    if newly != {} {
      var p :| p in newly;
      var v :| v in vs && v.page == p;
    }
    if v :| v in vs && v.page !in s.pinned && v.page in c.highmem {
      assert v.page in newly;
    }
  }

  /** The page flags, the kernel's mappings and the hypervisor's pins, as the operations change
      them. A batch of hypercalls takes effect when it is issued. */
  class Mmu {
    const c: Cfg
    var tables: Tables
    var roots: set<Page>
    var extra: map<Page, Page>
    var pinned: set<Page>
    var readonly: set<Page>
    var xen: set<Page>

    constructor (c: Cfg, tables: Tables, roots: set<Page>, extra: map<Page, Page>)
      ensures this.c == c && View() == Paging(tables, roots, extra, {}, {}, {})
    {
      this.c, this.tables, this.roots, this.extra := c, tables, roots, extra;
      pinned, readonly, xen := {}, {}, {};
    }

    function View(): Paging
      reads this
    {
      Paging(tables, roots, extra, pinned, readonly, xen)
    }

    /** xen_pin_page: the result says that unused kernel mappings have to be flushed. */
    method XenPinPage(page: Page, level: Level) returns (flush: bool)
      modifies `pinned, `readonly, `xen
      ensures View() == PinPage(c, old(View()), page, level)
      ensures flush <==> page !in old(pinned) && page in c.highmem
    {
      var pgfl := page in pinned;
      pinned := pinned + {page};
      if pgfl {
        flush := false;
        assert pinned == old(pinned);
      } else if page in c.highmem {
        flush := true;
      } else {
        flush := false;
        readonly := readonly + {page};
        if level == PTE && c.split {
          xen := xen + {page};
        }
      }
    }

    /** xen_unpin_page. */
    method XenUnpinPage(page: Page, level: Level)
      modifies `pinned, `readonly, `xen
      ensures View() == UnpinPage(c, old(View()), page, level)
    {
      var pgfl := page in pinned;
      pinned := pinned - {page};
      if pgfl && page !in c.highmem {
        if level == PTE && c.split {
          xen := xen - {page};
        }
        readonly := readonly - {page};
      } else if !pgfl {
        assert pinned == old(pinned);
      }
    }

    /** (*func)(mm, page, level). */
    method Call(pin: bool, page: Page, level: Level, ghost i: nat, ghost j: nat, ghost k: nat) returns (flush: bool)
      modifies `pinned, `readonly, `xen
      ensures View() == CallAll(c, pin, old(View()), [Visit(level, page, i, j, k)])
      ensures Called(c, pin, old(pinned), pinned, flush)
    {
      flush := false;
      if pin {
        flush := XenPinPage(page, level);
        assert (pinned - old(pinned)) * c.highmem == if flush then {page} else {};
      } else {
        XenUnpinPage(page, level);
        assert (pinned - old(pinned)) * c.highmem == {};
      }
      CallOne(c, pin, old(View()), Visit(level, page, i, j, k));
    }

    /** The innermost loop; the result tells whether the limit was passed. */
    method WalkPmds(pin: bool, pmd: seq<Option<Page>>, pgdidx: nat, pudidx: nat) returns (flush: bool, out: bool)
      modifies `pinned, `readonly, `xen
      ensures View() == CallAll(c, pin, old(View()),
                                PmdVisits(c, tables, pmd, pgdidx, pudidx, 0,
                                          pgdidx == c.pgdLimit && pudidx == c.pudLimit))
      ensures Called(c, pin, old(pinned), pinned, flush)
      ensures out ==> pgdidx == c.pgdLimit && pudidx == c.pudLimit
    {
      hide CallAll, Called;
      ghost var tight := pgdidx == c.pgdLimit && pudidx == c.pudLimit;
      var pmdidx := 0;
      flush := false;
      CalledNot(c, pin, pinned);
      while pmdidx < |pmd|
        invariant 0 <= pmdidx <= |pmd| && Called(c, pin, old(pinned), pinned, flush)
        invariant CallAll(c, pin, View(), PmdVisits(c, tables, pmd, pgdidx, pudidx, pmdidx, tight))
               == CallAll(c, pin, old(View()), PmdVisits(c, tables, pmd, pgdidx, pudidx, 0, tight))
      {
        if pgdidx == c.pgdLimit && pudidx == c.pudLimit && pmdidx > c.pmdLimit {
          CallNone(c, pin, View());
          return flush, true;
        }
        ghost var rest := PmdVisits(c, tables, pmd, pgdidx, pudidx, pmdidx + 1, tight);
        if pmd[pmdidx].Some? {
          CallConcat(c, pin, View(), [Visit(PTE, pmd[pmdidx].value, pgdidx, pudidx, pmdidx)], rest);
          ghost var before := pinned;
          var f := Call(pin, pmd[pmdidx].value, PTE, pgdidx, pudidx, pmdidx);
          CalledTwice(c, pin, old(pinned), before, pinned, flush, f);
          flush := flush || f;
        } else {
          assert [] + rest == rest;
        }
        pmdidx := pmdidx + 1;
      }
      CallNone(c, pin, View());
      return flush, false;
    }

    /** What is below one entry of a PUD table. */
    method WalkPmdPage(pin: bool, e: Option<Page>, pgdidx: nat, pudidx: nat) returns (flush: bool, out: bool)
      modifies `pinned, `readonly, `xen
      ensures View() == CallAll(c, pin, old(View()), PmdPage(c, tables, e, pgdidx, pudidx, pgdidx == c.pgdLimit))
      ensures Called(c, pin, old(pinned), pinned, flush)
      ensures out ==> pgdidx == c.pgdLimit && pudidx == c.pudLimit
    {
      hide CallAll, PmdVisits, Called;
      flush := false;
      CalledNot(c, pin, pinned);
      if e.None? {
        CallNone(c, pin, View());
        return false, false;
      }
      var pmd := Below(tables, e.value, c.foldPmd);
      ghost var rest := PmdVisits(c, tables, pmd, pgdidx, pudidx, 0, pgdidx == c.pgdLimit && pudidx == c.pudLimit);
      if !c.foldPmd {
        CallConcat(c, pin, View(), [Visit(PMD, e.value, pgdidx, pudidx, 0)], rest);
        flush := Call(pin, e.value, PMD, pgdidx, pudidx, 0);
      } else {
        assert [] + rest == rest;
      }
      ghost var before := pinned;
      var f;
      f, out := WalkPmds(pin, pmd, pgdidx, pudidx);
      CalledTwice(c, pin, old(pinned), before, pinned, flush, f);
      flush := flush || f;
    }

    /** The middle loop. */
    method WalkPuds(pin: bool, pud: seq<Option<Page>>, pgdidx: nat) returns (flush: bool, out: bool)
      modifies `pinned, `readonly, `xen
      ensures View() == CallAll(c, pin, old(View()), PudVisits(c, tables, pud, pgdidx, 0, pgdidx == c.pgdLimit))
      ensures Called(c, pin, old(pinned), pinned, flush)
      ensures out ==> pgdidx == c.pgdLimit
    {
      hide CallAll, PmdPage, Called;
      ghost var tight := pgdidx == c.pgdLimit;
      var pudidx := 0;
      flush := false;
      CalledNot(c, pin, pinned);
      while pudidx < |pud|
        invariant 0 <= pudidx <= |pud| && Called(c, pin, old(pinned), pinned, flush)
        invariant CallAll(c, pin, View(), PudVisits(c, tables, pud, pgdidx, pudidx, tight))
               == CallAll(c, pin, old(View()), PudVisits(c, tables, pud, pgdidx, 0, tight))
      {
        if pgdidx == c.pgdLimit && pudidx > c.pudLimit {
          CallNone(c, pin, View());
          return flush, true;
        }
        CallConcat(c, pin, View(), PmdPage(c, tables, pud[pudidx], pgdidx, pudidx, tight),
                   PudVisits(c, tables, pud, pgdidx, pudidx + 1, tight));
        ghost var before := pinned;
        var f;
        f, out := WalkPmdPage(pin, pud[pudidx], pgdidx, pudidx);
        CalledTwice(c, pin, old(pinned), before, pinned, flush, f);
        flush := flush || f;
        pudidx := pudidx + 1;
        if out {
          CallNone(c, pin, View());
          return;
        }
      }
      CallNone(c, pin, View());
      return flush, false;
    }

    /** What is below one entry of the directory. */
    method WalkPudPage(pin: bool, e: Option<Page>, pgdidx: nat) returns (flush: bool, out: bool)
      modifies `pinned, `readonly, `xen
      ensures View() == CallAll(c, pin, old(View()), PudPage(c, tables, e, pgdidx))
      ensures Called(c, pin, old(pinned), pinned, flush)
      ensures out ==> pgdidx == c.pgdLimit
    {
      hide CallAll, PudVisits, Called;
      if (pgdidx >= c.holeLow && pgdidx < c.holeHigh) || e.None? {
        CallNone(c, pin, View());
        CalledNot(c, pin, pinned);
        return false, false;
      }
      flush := false;
      CalledNot(c, pin, pinned);
      var pud := Below(tables, e.value, c.foldPud);
      ghost var rest := PudVisits(c, tables, pud, pgdidx, 0, pgdidx == c.pgdLimit);
      if !c.foldPud {
        CallConcat(c, pin, View(), [Visit(PUD, e.value, pgdidx, 0, 0)], rest);
        flush := Call(pin, e.value, PUD, pgdidx, 0, 0);
      } else {
        assert [] + rest == rest;
      }
      ghost var before := pinned;
      var f;
      f, out := WalkPuds(pin, pud, pgdidx);
      CalledTwice(c, pin, old(pinned), before, pinned, flush, f);
      flush := flush || f;
    }

    /** __xen_pgd_walk. */
    method Walk(pin: bool, pgd: Page) returns (flush: bool)
      modifies `pinned, `readonly, `xen
      ensures View() == CallAll(c, pin, old(View()), Visits(c, tables, pgd))
      ensures Called(c, pin, old(pinned), pinned, flush)
    {
      hide CallAll, PudPage, Called;
      if c.translated {
        CallNone(c, pin, View());
        CalledNot(c, pin, pinned);
        return false;
      }
      var entries := Entries(tables, pgd);
      CallConcat(c, pin, View(), PgdVisits(c, tables, entries, 0), [Visit(PGD, pgd, 0, 0, 0)]);
      flush := WalkPgds(pin, entries);
      ghost var before := pinned;
      var f := Call(pin, pgd, PGD, 0, 0, 0);
      CalledTwice(c, pin, old(pinned), before, pinned, flush, f);
      flush := flush || f;
    }

    /** The outermost loop, up to the label out. */
    method WalkPgds(pin: bool, pgd: seq<Option<Page>>) returns (flush: bool)
      modifies `pinned, `readonly, `xen
      ensures View() == CallAll(c, pin, old(View()), PgdVisits(c, tables, pgd, 0))
      ensures Called(c, pin, old(pinned), pinned, flush)
    {
      hide CallAll, PudPage, Called;
      var pgdidx := 0;
      flush := false;
      CalledNot(c, pin, pinned);
      while pgdidx < |pgd| && pgdidx <= c.pgdLimit
        invariant 0 <= pgdidx <= |pgd| && Called(c, pin, old(pinned), pinned, flush)
        invariant CallAll(c, pin, View(), PgdVisits(c, tables, pgd, pgdidx))
               == CallAll(c, pin, old(View()), PgdVisits(c, tables, pgd, 0))
      {
        CallConcat(c, pin, View(), PudPage(c, tables, pgd[pgdidx], pgdidx), PgdVisits(c, tables, pgd, pgdidx + 1));
        ghost var before := pinned;
        var f, out := WalkPudPage(pin, pgd[pgdidx], pgdidx);
        CalledTwice(c, pin, old(pinned), before, pinned, flush, f);
        flush := flush || f;
        pgdidx := pgdidx + 1;
        if out {
          break;
        }
      }
      CallNone(c, pin, View());
    }

    /** __xen_pgd_pin. The result tells whether it calls kmap_flush_unused: for the pages of the
        walk only, the result for the second page is dropped. */
    method XenPgdPin(pgd: Page) returns (flushed: bool)
      modifies `pinned, `readonly, `xen
      ensures View() == PinDir(c, old(View()), pgd)
      ensures flushed <==> exists v :: v in Visits(c, tables, pgd) && v.page !in old(pinned) && v.page in c.highmem
    {
      hide PinAll, Visits;
      ghost var s := View();
      flushed := Walk(true, pgd);
      FlushExactly(c, s, Visits(c, tables, pgd));
      if c.is64 {
        xen := xen + {pgd};
        if pgd in extra {
          var flush := XenPinPage(extra[pgd], PGD);
          xen := xen + {extra[pgd]};
        }
      } else {
        if pgd in extra {
          var flush := XenPinPage(extra[pgd], PMD);
        }
        xen := xen + {pgd};
      }
    }

    /** __xen_pgd_unpin. */
    method XenPgdUnpin(pgd: Page)
      modifies `pinned, `readonly, `xen
      ensures View() == UnpinDir(c, old(View()), pgd)
    {
      hide UnpinAll, Visits;
      ghost var s := View();
      xen := xen - {pgd};
      if c.is64 && pgd in extra {
        xen := xen - {extra[pgd]};
      }
      assert xen == s.xen - TopPins(c, s, pgd);
      if pgd in extra {
        XenUnpinPage(extra[pgd], ExtraLevel(c));
      }
      var flush := Walk(false, pgd);
    }

    /** xen_alloc_ptpage. */
    method XenAllocPtpage(pgd: Page, page: Page, level: Level)
      modifies `pinned, `readonly, `xen
      ensures View() == AllocPage(c, old(View()), pgd, page, level)
    {
      if pgd in pinned {
        pinned := pinned + {page};
        if page !in c.highmem {
          readonly := readonly + {page};
          if level == PTE && c.split {
            xen := xen + {page};
          }
        }
      }
    }

    /** xen_release_ptpage. */
    method XenReleasePtpage(page: Page, level: Level)
      modifies `pinned, `readonly, `xen
      ensures View() == ReleasePage(c, old(View()), page, level)
    {
      if page in pinned {
        if page !in c.highmem {
          if level == PTE && c.split {
            xen := xen - {page};
          }
          readonly := readonly - {page};
        }
        pinned := pinned - {page};
      }
    }
  }
}
