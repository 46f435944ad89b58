/** Four-level page tables in physical memory, and what the MMU reads from them. Physical memory
    is a collection of frames of 512 words; a virtual page is its four table indices, bits 12-47. */
module PageTables {
  import opened Words

  type Index = n: nat | n < 512
  type Table = t: seq<Word> | |t| == 512 witness seq(512, _ => 0)
  type Memory = map<nat, Table>

  datatype Page = Page(i4: Index, i3: Index, i2: Index, i1: Index)

  /** A table's place in its tree: the indices leading to it from a root. */
  datatype Path = Root | L3(i4: Index) | L2(i4: Index, i3: Index) | L1(i4: Index, i3: Index, i2: Index)

  function Child(p: Path, i: Index): Path
    requires !p.L1?
  {
    match p
    case Root => L3(i)
    case L3(a) => L2(a, i)
    case L2(a, b) => L1(a, b, i)
  }

  type Labels = map<nat, Path>

  // ---------------------------------------------------------------- the walk

  /** The table that entry i of table t points to, if t is RAM and the entry is present. */
  function Next(m: Memory, t: Option<nat>, i: Index): Option<nat> {
    if t.Some? && t.value in m && Present(m[t.value][i]) then Some(Target(m[t.value][i])) else None
  }

  function Table3(m: Memory, r: nat, p: Page): Option<nat> { Next(m, Some(r), p.i4) }
  function Table2(m: Memory, r: nat, p: Page): Option<nat> { Next(m, Table3(m, r, p), p.i3) }
  function Table1(m: Memory, r: nat, p: Page): Option<nat> { Next(m, Table2(m, r, p), p.i2) }

  /** The abstract address space of root r: the entry the walk finds for page p, zero (not
      present) when a table on the way is missing. */
  function Entry(m: Memory, r: nat, p: Page): Word {
    var t := Table1(m, r, p);
    if t.Some? && t.value in m then m[t.value][p.i1] else 0
  }

  /** Physical memory after one word is stored. */
  function Put(m: Memory, f: nat, i: Index, w: Word): (m': Memory)
    requires f in m
    ensures m'.Keys == m.Keys
  {
    var t: Table := m[f][i := w];
    m[f := t]
  }

  function ZeroTable(): Table { seq(512, _ => 0) }

  // ---------------------------------------------------------------- tables form trees

  /** Every table frame carries one path, and a present entry of a non-leaf table points to a
      table labelled with the extended path. So different paths never meet in one frame. */
  ghost predicate TablesOk(m: Memory, ls: Labels) {
    && (forall f :: f in ls ==> f in m)
    && (forall f, i: Index :: f in ls && !ls[f].L1? && Present(m[f][i]) ==>
          Target(m[f][i]) in ls && ls[Target(m[f][i])] == Child(ls[f], i))
  }

  ghost predicate IsRoot(ls: Labels, r: nat) { r in ls && ls[r] == Root }

  /** Outside the pages of s, every root's address space is the same in both memories. */
  ghost predicate SameEntries(m: Memory, m': Memory, ls: Labels, s: set<Page>) {
    forall r, p :: IsRoot(ls, r) && p !in s ==> Entry(m', r, p) == Entry(m, r, p)
  }

  /** Every table found on a walk before is found on it afterwards. */
  ghost predicate KeepsTables(m: Memory, m': Memory, ls: Labels) {
    forall r, p :: IsRoot(ls, r) ==>
      && (Table3(m, r, p).Some? ==> Table3(m', r, p) == Table3(m, r, p))
      && (Table2(m, r, p).Some? ==> Table2(m', r, p) == Table2(m, r, p))
      && (Table1(m, r, p).Some? ==> Table1(m', r, p) == Table1(m, r, p))
  }

  lemma WalkLabels(m: Memory, ls: Labels, r: nat, p: Page)
    requires TablesOk(m, ls) && IsRoot(ls, r)
    ensures var t := Table3(m, r, p); t.Some? ==> t.value in ls && ls[t.value] == L3(p.i4)
    ensures var t := Table2(m, r, p); t.Some? ==> t.value in ls && ls[t.value] == L2(p.i4, p.i3)
    ensures var t := Table1(m, r, p); t.Some? ==> t.value in ls && ls[t.value] == L1(p.i4, p.i3, p.i2)
  {
  }

  /** Different index paths lead to different frames, at every pair of levels. */
  lemma PathsDistinct(m: Memory, ls: Labels, r: nat, p: Page, q: Page)
    requires TablesOk(m, ls) && IsRoot(ls, r)
    ensures Table1(m, r, p).Some? && Table1(m, r, p) == Table1(m, r, q) ==> p.i4 == q.i4 && p.i3 == q.i3 && p.i2 == q.i2
    ensures Table2(m, r, p).Some? && Table2(m, r, p) == Table2(m, r, q) ==> p.i4 == q.i4 && p.i3 == q.i3
    ensures Table3(m, r, p).Some? && Table3(m, r, p) == Table3(m, r, q) ==> p.i4 == q.i4
    ensures Table1(m, r, p).Some? ==> Table1(m, r, p) != Table2(m, r, q) && Table1(m, r, p) != Table3(m, r, q) && Table1(m, r, p) != Some(r)
    ensures Table2(m, r, p).Some? ==> Table2(m, r, p) != Table3(m, r, q) && Table2(m, r, p) != Some(r)
    ensures Table3(m, r, p) != Some(r)
  {
    WalkLabels(m, ls, r, p);
    WalkLabels(m, ls, r, q);
  }

  /** Storing a leaf entry keeps every tree and changes the entry of one page only. */
  lemma LeafWrite(m: Memory, ls: Labels, f: nat, i: Index, w: Word)
    requires TablesOk(m, ls) && f in ls && ls[f].L1?
    ensures TablesOk(Put(m, f, i, w), ls)
    ensures KeepsTables(m, Put(m, f, i, w), ls)
    ensures forall r, p :: IsRoot(ls, r) ==>
              Entry(Put(m, f, i, w), r, p) == if Table1(m, r, p) == Some(f) && p.i1 == i then w else Entry(m, r, p)
    ensures SameEntries(m, Put(m, f, i, w), ls, {Page(ls[f].i4, ls[f].i3, ls[f].i2, i)})
  {
    var m' := Put(m, f, i, w);
    forall r, p | IsRoot(ls, r)
      ensures Table1(m', r, p) == Table1(m, r, p)
      ensures Table1(m, r, p) == Some(f) ==> p == Page(ls[f].i4, ls[f].i3, ls[f].i2, p.i1)
    {
      WalkLabels(m, ls, r, p);
    }
  }

  /** Memory m' is m with a zeroed frame c, unlabelled so far, linked under the absent entry i of f. */
  ghost predicate Linked(m: Memory, m': Memory, ls: Labels, f: nat, i: Index, c: nat) {
    && f in ls && f in m && !ls[f].L1? && !Present(m[f][i])
    && c in m && c !in ls
    && m'.Keys == m.Keys && m'[c] == ZeroTable()
    && MapsTo(m'[f][i], c) && (forall j: Index :: j != i ==> m'[f][j] == m[f][j])
    && (forall g :: g in m && g != f && g != c ==> m'[g] == m[g])
  }

  lemma LinkKeepsTrees(m: Memory, m': Memory, ls: Labels, f: nat, i: Index, c: nat)
    requires TablesOk(m, ls) && Linked(m, m', ls, f, i, c)
    ensures TablesOk(m', ls[c := Child(ls[f], i)])
  {
    var ls' := ls[c := Child(ls[f], i)];
    forall g, j: Index | g in ls' && !ls'[g].L1? && Present(m'[g][j])
      ensures Target(m'[g][j]) in ls' && ls'[Target(m'[g][j])] == Child(ls'[g], j)
    {
      if g != c && (g != f || j != i) {
        assert m'[g][j] == m[g][j];
      }
    }
  }

  /** One step of a walk from a labelled table: the same as before, except at the new link. */
  lemma LinkNext(m: Memory, m': Memory, ls: Labels, f: nat, i: Index, c: nat, t: nat, j: Index)
    requires Linked(m, m', ls, f, i, c) && TablesOk(m, ls)
    ensures t in ls ==> Next(m', Some(t), j) == if t == f && j == i then Some(c) else Next(m, Some(t), j)
    ensures Next(m', Some(c), j) == None
  {
  }

  /** Linking a zeroed table changes no page's entry: what was unmapped reads zero either way. */
  lemma LinkKeepsEntry(m: Memory, m': Memory, ls: Labels, f: nat, i: Index, c: nat, r: nat, p: Page)
    requires TablesOk(m, ls) && Linked(m, m', ls, f, i, c) && IsRoot(ls, r)
    ensures Entry(m', r, p) == Entry(m, r, p)
    ensures Table3(m, r, p).Some? ==> Table3(m', r, p) == Table3(m, r, p)
    ensures Table2(m, r, p).Some? ==> Table2(m', r, p) == Table2(m, r, p)
    ensures Table1(m, r, p).Some? ==> Table1(m', r, p) == Table1(m, r, p)
  {
    WalkLabels(m, ls, r, p);
    LinkNext(m, m', ls, f, i, c, r, p.i4);
    var t3 := Table3(m, r, p);
    if t3.Some? {
      LinkNext(m, m', ls, f, i, c, t3.value, p.i3);
      var t2 := Table2(m, r, p);
      if t2.Some? {
        LinkNext(m, m', ls, f, i, c, t2.value, p.i2);
      } else {
        LinkNext(m, m', ls, f, i, c, c, p.i2);
      }
    } else {
      LinkNext(m, m', ls, f, i, c, c, p.i3);
    }
  }

  lemma LinkKeepsEntries(m: Memory, m': Memory, ls: Labels, f: nat, i: Index, c: nat)
    requires TablesOk(m, ls) && Linked(m, m', ls, f, i, c)
    ensures SameEntries(m, m', ls, {}) && KeepsTables(m, m', ls)
  {
    forall r, p | IsRoot(ls, r)
      ensures Entry(m', r, p) == Entry(m, r, p)
      ensures Table3(m, r, p).Some? ==> Table3(m', r, p) == Table3(m, r, p)
      ensures Table2(m, r, p).Some? ==> Table2(m', r, p) == Table2(m, r, p)
      ensures Table1(m, r, p).Some? ==> Table1(m', r, p) == Table1(m, r, p)
    {
      LinkKeepsEntry(m, m', ls, f, i, c, r, p);
    }
  }
}
