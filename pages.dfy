/** The page source both kernel memory allocators draw on (get_page, free_page,
    BASEADDR and PAGESIZE of kma_page.h), and the address model they share.

    An address is a pair (page, off): `page` is the frame number of the page that
    holds it, `off` the byte offset inside that page. Because every offset of an
    address inside a page is below PAGESIZE, ordering addresses by page and then by
    offset is the same as ordering the raw pointers page * PAGESIZE + off. */
module Pages {

  /** Size in bytes of a page handed out by the page source. */
  const PAGESIZE: nat := 8192

  /** sizeof(kma_size_t): the header word every block starts with. */
  const ALLOC_HEADER_SIZE: nat := 4

  /** sizeof(void*). */
  const POINTER_SIZE: nat := 8

  datatype Addr = Addr(page: nat, off: nat)

  /** BASEADDR: the first byte of the page holding `a`. */
  function BaseAddr(a: Addr): (b: Addr)
    ensures b.page == a.page && b.off == 0
  {
    Addr(a.page, 0)
  }

  /** The byte `n` places after `a`, in the same page. */
  function Offset(a: Addr, n: nat): (b: Addr)
    ensures b.page == a.page && b.off == a.off + n
  {
    Addr(a.page, a.off + n)
  }

  /** HEADER: the block header in front of a payload pointer. */
  function Header(payload: Addr): (hdr: Addr)
    requires payload.off >= ALLOC_HEADER_SIZE
    ensures Payload(hdr) == payload
  {
    Addr(payload.page, payload.off - ALLOC_HEADER_SIZE)
  }

  /** PAYLOAD: the first byte after a block's header word. */
  function Payload(hdr: Addr): (p: Addr)
  {
    Offset(hdr, ALLOC_HEADER_SIZE)
  }

  lemma HeaderOfPayload(hdr: Addr)
    ensures Payload(hdr).off >= ALLOC_HEADER_SIZE && Header(Payload(hdr)) == hdr
  {
  }

  /** Pointer comparison `a < b`. */
  predicate Below(a: Addr, b: Addr)
  {
    a.page < b.page || (a.page == b.page && a.off < b.off)
  }

  /** The raw address of `a`, for addresses inside their page. */
  function Raw(a: Addr): nat
  {
    a.page * PAGESIZE + a.off
  }

  lemma {:induction false} BelowIsRawOrder(a: Addr, b: Addr)
    requires a.off < PAGESIZE && b.off < PAGESIZE
    ensures Below(a, b) <==> Raw(a) < Raw(b)
  {
    if a.page < b.page {
      calc {
        Raw(a);
      <  (a.page + 1) * PAGESIZE;
      <= b.page * PAGESIZE;
      <= Raw(b);
      }
    } else if a.page > b.page {
      calc {
        Raw(b);
      <  (b.page + 1) * PAGESIZE;
      <= a.page * PAGESIZE;
      <= Raw(a);
      }
    }
  }

  /** The external page source: it hands out page-aligned regions of PAGESIZE
      bytes that no one else owns, and takes them back. Only which frames are
      currently handed out is modelled; the memory itself belongs to the
      allocators. */
  class PageSource {
    /** Frames currently handed out. */
    var owned: set<nat>
    /** Every frame at or above this one has never been handed out. */
    var unused: nat

    ghost predicate Valid()
      reads this
    {
      forall p :: p in owned ==> p < unused
    }

    constructor ()
      ensures Valid() && owned == {}
    {
      owned := {};
      unused := 0;
    }

    /** get_page: a frame the allocators do not already hold. */
    method GetPage() returns (p: nat)
      requires Valid()
      modifies this
      ensures Valid()
      ensures p !in old(owned) && owned == old(owned) + {p}
    {
      p := unused;
      owned := owned + {p};
      unused := unused + 1;
    }

    /** free_page: give a frame back. */
    method FreePage(p: nat)
      requires Valid() && p in owned
      modifies this
      ensures Valid()
      ensures owned == old(owned) - {p}
    {
      owned := owned - {p};
    }
  }
}
