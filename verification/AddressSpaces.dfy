/** A space: its first-level table, and two parallel chains of the sections it lists and their coarse tables. */
module AddressSpaces {
  import opened Sequences
  import opened Descriptors
  import opened PageTables
  import L = LinkedLists

  class AddressSpace {
    var tt: array<Word>
    const cptds: L.List<Word>
    const cpts: L.List<Word>
    ghost var sections: seq<Word>
    ghost var bases: seq<Word>

    constructor (tt: array<Word>)
      ensures this.tt == tt && Linked() && sections == [] && bases == []
      ensures fresh(cptds) && fresh(cpts)
    {
      this.tt := tt;
      cptds := new L.List<Word>();
      cpts := new L.List<Word>();
      sections, bases := [], [];
      new;
      cptds.of, cpts.of := this, this;
    }

    /** The chains are lists of this space, and hold what the ghost fields say. */
    ghost predicate Linked()
      reads this`sections, this`bases, cptds, cpts, cptds.entries, cpts.entries
    {
      && cptds != cpts && cptds.of == this && cpts.of == this
      && cptds.Valid() && cptds.values == sections
      && cpts.Valid() && cpts.values == bases
    }

    ghost function Over(tt: Table): Space
      reads this`sections, this`bases
    {
      Space(tt, sections, bases)
    }

    /** Both lists grow at the head, by an entry requested for each. */
    method Take(section: Word, base: Word, ghost tt: Table)
      requires Linked()
      modifies this`sections, this`bases, cptds, cpts
      ensures Linked() && Over(SetSlot(tt, section, NewCPTD(0, base))) == TakeSection(old(Over(tt)), section, base)
    {
      var cptd := new L.Entry(section);
      var cpt := new L.Entry(base);
      cpts.Add(cpt);
      cptds.Add(cptd);
      sections, bases := [section] + sections, [base] + bases;
    }

    /** The entry of a section, and the index of the first. */
    method Search(section: Word) returns (cptd: L.Entry?<Word>, i: nat)
      requires Linked()
      ensures cptd == null <==> IndexOf(sections, section) == |sections|
      ensures cptd != null ==> i == IndexOf(sections, section) && i < |cptds.entries| && cptds.entries[i] == cptd
    {
      cptd, i := cptds.Search(section);
      FirstIndex(sections, section, if cptd == null then |sections| else i);
    }

    /** The table of a section: one list is searched and the other indexed. */
    method Find(section: Word, ghost tt: Table) returns (cptd: L.Entry?<Word>, cpt: L.Entry?<Word>)
      requires Linked()
      ensures cptd == null <==> section !in sections
      ensures cptd != null && cpt == null <==> Unpaired(Over(tt), section)
      ensures ListedTable(Over(tt), section) == if cptd == null || cpt == null then NULL else At(cpt.data)
    {
      var i: nat;
      cptd, i := Search(section);
      cpt := null;
      if cptd != null {
        cpt := cpts.Get(i);
      }
    }

    /**
     * Takes a section out of both lists, and hands back what the second held. A section listed where the second list
     * has ended makes it read through null.
     */
    method Drop(section: Word, ghost tt: Table) returns (cpt: L.Entry?<Word>, faulted: bool)
      requires Linked()
      modifies this`sections, this`bases, cptds, cpts, cptds.entries, cpts.entries
      ensures faulted <==> old(Unpaired(Over(tt), section))
      ensures !faulted ==> Linked() && Over(tt) == Unlisted(old(Over(tt)), section)
      ensures !faulted ==> ListedTable(old(Over(tt)), section) == if cpt == null then NULL else At(cpt.data)
    {
      var cptd, i := Search(section);
      if cptd == null {
        return null, false;
      }
      cpt, faulted := DropAt(cptd, i);
    }

    method DropAt(cptd: L.Entry<Word>, i: nat) returns (cpt: L.Entry?<Word>, faulted: bool)
      requires Linked() && i < |cptds.entries| && cptds.entries[i] == cptd
      modifies this`sections, this`bases, cptds, cpts, cptds.entries, cpts.entries
      ensures (faulted <==> cpt == null) && (faulted <==> |old(bases)| <= i)
      ensures !faulted ==> Linked() && i < |old(bases)| && cpt.data == old(bases)[i]
      ensures !faulted ==> sections == Without(old(sections), i) && bases == Without(old(bases), i)
    {
      DropSection(cptd, i);
      cpt := cpts.Get(i);
      var found, fault := cpts.Remove(cpt);
      faulted := fault || cpt == null;
      bases := cpts.values;
    }

    method DropSection(cptd: L.Entry<Word>, ghost i: nat)
      requires Linked() && i < |cptds.entries| && cptds.entries[i] == cptd
      modifies this`sections, cptds, cptds.entries
      ensures Linked() && sections == Without(old(sections), i)
    {
      var found, fault := cptds.Remove(cptd);
      sections := cptds.values;
      assert cpts.Valid() == old(cpts.Valid());
    }
  }
  /** The chains of two spaces have nothing in common, so a call that changes those of one leaves the other's. */
  lemma ChainsApart(s: AddressSpace, t: AddressSpace)
    requires s.Linked() && t.Linked() && s != t
    ensures s.cptds != t.cptds && s.cptds != t.cpts && s.cpts != t.cptds && s.cpts != t.cpts
    ensures forall e :: e in s.cptds.entries || e in s.cpts.entries ==> e !in t.cptds.entries && e !in t.cpts.entries
  {
    forall e | e in s.cptds.entries || e in s.cpts.entries
      ensures e !in t.cptds.entries && e !in t.cpts.entries
    {
      assert e.home == s.cptds || e.home == s.cpts;
    }
  }
}
