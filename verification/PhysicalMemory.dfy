/** Physical memory: 64-bit words in pages of 512. The word at byte address
    4096 * f + 8 * i is word `i` of frame `f`. Free-list nodes and page tables both
    live in here. */
module PhysicalMemory {

  const PAGE_SIZE := 4096
  const WORD_LIMIT := 0x1_0000_0000_0000_0000
  const WORDS_PER_PAGE := 512

  type Word = x: nat | x < WORD_LIMIT
  type Page = s: seq<Word> | |s| == WORDS_PER_PAGE witness seq(WORDS_PER_PAGE, _ => 0)

  /** The frames written so far; an absent frame reads as zero. */
  type Ram = map<nat, Page>

  function ZeroPage(): Page {
    seq(WORDS_PER_PAGE, _ => 0)
  }

  function PageAt(m: Ram, f: nat): Page {
    if f in m then m[f] else ZeroPage()
  }

  function WordAt(m: Ram, f: nat, i: nat): Word
    requires i < WORDS_PER_PAGE
  {
    PageAt(m, f)[i]
  }

  class Memory {
    var pages: Ram

    constructor (initial: Ram)
      ensures pages == initial
    {
      pages := initial;
    }

    method WritePage(f: nat, p: Page)
      modifies this
      ensures pages == old(pages)[f := p]
    {
      pages := pages[f := p];
    }

    method WriteWord(f: nat, i: nat, w: Word)
      requires i < WORDS_PER_PAGE
      modifies this
      ensures pages == old(pages)[f := PageAt(old(pages), f)[i := w]]
    {
      pages := pages[f := PageAt(pages, f)[i := w]];
    }

    /** `write_bytes(f, 0, n * 4096)` */
    method ZeroPages(f: nat, n: nat)
      modifies this
      ensures forall g: nat :: PageAt(pages, g) == if f <= g < f + n then ZeroPage() else PageAt(old(pages), g)
    {
      for k := 0 to n
        invariant forall g: nat :: PageAt(pages, g) == if f <= g < f + k then ZeroPage() else PageAt(old(pages), g)
      {
        ghost var before := pages;
        WritePage(f + k, ZeroPage());
        assert forall g: nat :: PageAt(pages, g) == if g == f + k then ZeroPage() else PageAt(before, g);
      }
    }
  }
}
