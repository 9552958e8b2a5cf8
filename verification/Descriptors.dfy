/** Page-table descriptors and the bit arithmetic of their writer and their reader. */
module Descriptors {

  type Word = bv32

  // ----- the writer

  /** A coarse page table descriptor. */
  function NewCPTD(domain: Word, base: Word): Word {
    0x11 | ((domain & 0xf) << 5) | (base & 0xffff_fc00)
  }

  /** A section descriptor. */
  function NewSD(c: Word, b: Word, domain: Word, ap: Word, base: Word): Word {
    0x12 | ((c & 1) << 3) | ((b & 1) << 2) | ((domain & 0xf) << 5) | ((ap & 3) << 10) | (base & 0xfff0_0000)
  }

  /** A large page descriptor; `ap` is an 8-bit field. */
  function NewLPD(c: Word, b: Word, ap: Word, base: Word): Word {
    0x1 | ((c & 1) << 3) | ((b & 1) << 2) | ((ap & 0xff) << 4) | (base & 0xffff_0000)
  }

  /** A small page descriptor. */
  function NewSPD(c: Word, b: Word, ap: Word, base: Word): Word {
    0x2 | ((c & 1) << 3) | ((b & 1) << 2) | ((ap & 0xff) << 4) | (base & 0xffff_f000)
  }

  /** The section an address lies in, as the writer computes it. */
  function SectionOf(adr: Word): Word {
    adr & 0xfff0_0000
  }

  /** Its place in a coarse table, as the writer computes it: the distance into the section in pages. */
  function TableIndex(adr: Word): Word {
    (adr - SectionOf(adr)) / 4096
  }

  // ----- the reader

  predicate IsInvalid(d: Word) {
    d & 3 == 0
  }

  predicate IsSection(d: Word) {
    d & 3 == 2
  }

  predicate IsCoarse(d: Word) {
    d & 3 == 1
  }

  function SectionBase(d: Word): Word {
    (d >> 20) << 20
  }

  function CoarseBase(d: Word): Word {
    d & 0xffff_fc00
  }

  function WithinSection(adr: Word): Word {
    (adr << 12) >> 12
  }

  /** The place in a coarse table, as the reader computes it. */
  function ReadIndex(adr: Word): Word {
    ((adr & 0xf_f000) >> 10) / 4
  }

  datatype Physical = NULL | At(address: Word)

  /** The place of an address on a small page. */
  function OnPage(page: Word, adr: Word): Physical {
    At(page + (adr & 0xfff))
  }

  /** An address of a small page is as far behind the frame as it is behind the start of its page. */
  lemma OffsetOnPage(page: Word, adr: Word, off: Word)
    requires off == adr - PageStart(adr)
    ensures OnPage(page, adr) == At(page + off)
  {
    OffsetBits(adr);
  }

  lemma OffsetBits(adr: Word)
    ensures adr - PageStart(adr) == adr & 0xfff
  {
  }

  /** A page starts at a multiple of 4096, and its addresses are the next 4096. */
  lemma PageStartIs(adr: Word)
    ensures PageStart(adr) & 0xfff == 0 && PageStart(adr) <= adr && adr - PageStart(adr) < 4096
  {
  }

  /** A second-level descriptor: small and large pages translate, the rest does not. */
  function ReadPage(d: Word, adr: Word): Physical {
    if d & 3 == 1 then At((d & 0xffff_0000) + (adr & 0xffff))
    else if d & 3 == 2 then OnPage(d & 0xffff_f000, adr)
    else NULL
  }

  // ----- reader and writer agree

  lemma ReadCPTD(domain: Word, base: Word)
    ensures IsCoarse(NewCPTD(domain, base)) && CoarseBase(NewCPTD(domain, base)) == base & 0xffff_fc00
  {
  }

  lemma ReadSD(c: Word, b: Word, domain: Word, ap: Word, base: Word)
    ensures IsSection(NewSD(c, b, domain, ap, base))
    ensures SectionBase(NewSD(c, b, domain, ap, base)) == base & 0xfff0_0000
  {
  }

  lemma ReadSPD(c: Word, b: Word, ap: Word, page: Word, adr: Word)
    requires page & 0xfff == 0
    ensures ReadPage(NewSPD(c, b, ap, page), adr) == OnPage(page, adr)
  {
    SPDFields(c, b, ap, page);
    SmallPage(NewSPD(c, b, ap, page), page, adr);
  }

  /** A small page translates to the frame and the offset, whatever its flags. */
  lemma SPDResolves(c: Word, b: Word, ap: Word, page: Word, adr: Word, off: Word)
    requires page & 0xfff == 0 && off == adr - PageStart(adr)
    ensures ReadPage(NewSPD(c, b, ap, page), adr) == At(page + off)
  {
    ReadSPD(c, b, ap, page, adr);
    OffsetOnPage(page, adr, off);
  }

  lemma SmallPage(d: Word, page: Word, adr: Word)
    requires d & 3 == 2 && d & 0xffff_f000 == page
    ensures ReadPage(d, adr) == OnPage(page, adr)
  {
    NotLarge(d);
  }

  lemma NotLarge(d: Word)
    requires d & 3 == 2
    ensures d & 3 != 1
  {
  }

  /** The flags of a small page: cacheable, bufferable, and four times two bits of access permission. */
  function Cacheable(d: Word): Word {
    (d >> 3) & 1
  }

  function Bufferable(d: Word): Word {
    (d >> 2) & 1
  }

  function Permissions(d: Word): Word {
    (d >> 4) & 0xff
  }

  lemma SPDFlags(c: Word, b: Word, ap: Word, page: Word)
    requires c <= 1 && b <= 1 && ap <= 0xff
    ensures Cacheable(NewSPD(c, b, ap, page)) == c && Bufferable(NewSPD(c, b, ap, page)) == b
    ensures Permissions(NewSPD(c, b, ap, page)) == ap
  {
  }

  /** The same for a section, with two bits of access permission, and a domain. */
  function Domain(d: Word): Word {
    (d >> 5) & 0xf
  }

  function Access(d: Word): Word {
    (d >> 10) & 3
  }

  lemma SDFlags(c: Word, b: Word, domain: Word, ap: Word, base: Word)
    requires c <= 1 && b <= 1 && domain <= 0xf && ap <= 3
    ensures var d := NewSD(c, b, domain, ap, base);
            Cacheable(d) == c && Bufferable(d) == b && Domain(d) == domain && Access(d) == ap
  {
  }

  lemma CPTDFlags(domain: Word, base: Word)
    requires domain <= 0xf
    ensures Domain(NewCPTD(domain, base)) == domain
  {
  }

  /** The fields of a descriptor do not overlap: the word is their sum, each at its place. */
  lemma SPDIsSum(c: Word, b: Word, ap: Word, page: Word)
    requires c <= 1 && b <= 1 && ap <= 0xff && page & 0xfff == 0
    ensures NewSPD(c, b, ap, page) == page + 2 + 4 * b + 8 * c + 16 * ap
  {
  }

  lemma LPDIsSum(c: Word, b: Word, ap: Word, page: Word)
    requires c <= 1 && b <= 1 && ap <= 0xff && page & 0xffff == 0
    ensures NewLPD(c, b, ap, page) == page + 1 + 4 * b + 8 * c + 16 * ap
  {
  }

  lemma SDIsSum(c: Word, b: Word, domain: Word, ap: Word, base: Word)
    requires c <= 1 && b <= 1 && domain <= 0xf && ap <= 3 && base & 0xf_ffff == 0
    ensures NewSD(c, b, domain, ap, base) == base + 0x12 + 4 * b + 8 * c + 32 * domain + 1024 * ap
  {
  }

  lemma CPTDIsSum(domain: Word, base: Word)
    requires domain <= 0xf && base & 0x3ff == 0
    ensures NewCPTD(domain, base) == base + 0x11 + 32 * domain
  {
  }

  lemma SPDFields(c: Word, b: Word, ap: Word, page: Word)
    requires page & 0xfff == 0
    ensures NewSPD(c, b, ap, page) & 3 == 2 && NewSPD(c, b, ap, page) & 0xffff_f000 == page
  {
  }

  lemma ReadLPD(c: Word, b: Word, ap: Word, page: Word, adr: Word)
    requires page & 0xffff == 0
    ensures ReadPage(NewLPD(c, b, ap, page), adr) == At(page + (adr & 0xffff))
  {
    LPDFields(c, b, ap, page);
  }

  lemma LPDFields(c: Word, b: Word, ap: Word, page: Word)
    requires page & 0xffff == 0
    ensures NewLPD(c, b, ap, page) & 3 == 1 && NewLPD(c, b, ap, page) & 0xffff_0000 == page
  {
  }

  /** Both index computations come to the same. */
  lemma IndicesAgree(adr: Word)
    ensures TableIndex(adr) == ReadIndex(adr) == (adr >> 12) & 0xff
  {
  }

  // ----- words as indices

  lemma RoundTrip(x: Word)
    ensures (x as int) as Word == x
  {
  }

  lemma SameInt(x: Word, y: Word)
    ensures x as int == y as int <==> x == y
  {
    RoundTrip(x);
    RoundTrip(y);
  }

  /** Index of a section in a translation table. */
  function SectionNumber(adr: Word): (n: nat)
    ensures n < 4096
  {
    (adr >> 20) as int
  }

  /** Index of a page in a coarse table. */
  function PageNumber(adr: Word): (n: nat)
    ensures n < 256
  {
    ReadIndex(adr) as int
  }

  lemma SectionNumberIs(a: Word, b: Word)
    ensures SectionNumber(a) == SectionNumber(b) <==> SectionOf(a) == SectionOf(b)
  {
    SectionNumberBits(a, b);
    if SectionOf(a) == SectionOf(b) {
      SectionUp(a, b);
    } else {
      SectionDown(a, b);
    }
  }

  lemma SectionNumberBits(a: Word, b: Word)
    ensures SectionNumber(a) == SectionNumber(b) <==> a >> 20 == b >> 20
  {
    SameInt(a >> 20, b >> 20);
  }

  lemma SectionDown(a: Word, b: Word)
    ensures a >> 20 == b >> 20 ==> SectionOf(a) == SectionOf(b)
  {
  }

  lemma SectionUp(a: Word, b: Word)
    ensures SectionOf(a) == SectionOf(b) ==> a >> 20 == b >> 20
  {
  }

  lemma SectionTwice(a: Word)
    ensures SectionOf(SectionOf(a)) == SectionOf(a)
  {
  }

  /** The page an address lies in. */
  function PageStart(adr: Word): Word {
    adr & 0xffff_f000
  }

  predicate SamePage(a: Word, b: Word) {
    PageStart(a) == PageStart(b)
  }

  /** Two addresses share a page exactly when they share section and place in the table. */
  lemma SamePageIs(a: Word, b: Word)
    ensures SamePage(a, b) <==> SectionNumber(a) == SectionNumber(b) && PageNumber(a) == PageNumber(b)
  {
    SectionNumberIs(a, b);
    PageNumberIs(a, b);
    PageBits(a, b);
  }

  lemma PageNumberIs(a: Word, b: Word)
    ensures PageNumber(a) == PageNumber(b) <==> a & 0xf_f000 == b & 0xf_f000
  {
    SameInt(ReadIndex(a), ReadIndex(b));
    IndexDown(a, b);
    IndexUp(a, b);
  }

  lemma IndexDown(a: Word, b: Word)
    ensures a & 0xf_f000 == b & 0xf_f000 ==> ReadIndex(a) == ReadIndex(b)
  {
  }

  lemma IndexUp(a: Word, b: Word)
    ensures ReadIndex(a) == ReadIndex(b) ==> a & 0xf_f000 == b & 0xf_f000
  {
    ReadIndexIs(a);
    ReadIndexIs(b);
    Masked(a);
    Masked(b);
  }

  lemma ReadIndexIs(adr: Word)
    ensures ReadIndex(adr) == (adr >> 12) & 0xff
  {
  }

  lemma Masked(adr: Word)
    ensures ((adr >> 12) & 0xff) << 12 == adr & 0xf_f000
  {
  }

  lemma PageBits(a: Word, b: Word)
    ensures SamePage(a, b) <==> SectionOf(a) == SectionOf(b) && a & 0xf_f000 == b & 0xf_f000
  {
    PageParts(a);
    PageParts(b);
    if SamePage(a, b) {
      PartsOfPage(a);
      PartsOfPage(b);
    }
  }

  lemma PageParts(a: Word)
    ensures a & 0xffff_f000 == SectionOf(a) | (a & 0xf_f000)
  {
  }

  lemma PartsOfPage(a: Word)
    ensures SectionOf(a) == (a & 0xffff_f000) & 0xfff0_0000
    ensures a & 0xf_f000 == (a & 0xffff_f000) & 0xf_f000
  {
  }
}
