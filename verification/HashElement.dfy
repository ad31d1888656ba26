/** The elements of a hash table and the two linked structures they form. */
module HashElement {
  import opened Bits

  type Key = string
  type Hash = Key -> U32

  /** A user's structure together with its hash handle `hh`. */
  class Element {
    const key: Key
    const address: U32
    var hashv: U32
    var prev: Element?
    var next: Element?
    var hhPrev: Element?
    var hhNext: Element?

    constructor (key: Key, address: U32)
      ensures this.key == key && this.address == address
    {
      this.key, this.address := key, address;
    }
  }

  function At(s: seq<Element>, i: int): Element? {
    if 0 <= i < |s| then s[i] else null
  }

  ghost predicate Distinct(s: seq<Element>) {
    forall i, j | 0 <= i < j < |s| :: s[i] != s[j]
  }

  /** `s` is an application-order list: `prev` and `next` are mutually inverse along it. */
  ghost predicate ListLinked(s: seq<Element>)
    reads s`prev, s`next
  {
    && (forall i {:trigger s[i].prev} | 0 <= i < |s| :: s[i].prev == At(s, i - 1))
    && (forall i {:trigger s[i].next} | 0 <= i < |s| :: s[i].next == At(s, i + 1))
  }

  /** `s` is a bucket chain: `hhPrev` and `hhNext` are mutually inverse along it. */
  ghost predicate ChainLinked(s: seq<Element>)
    reads s`hhPrev, s`hhNext
  {
    && (forall i {:trigger s[i].hhPrev} | 0 <= i < |s| :: s[i].hhPrev == At(s, i - 1))
    && (forall i {:trigger s[i].hhNext} | 0 <= i < |s| :: s[i].hhNext == At(s, i + 1))
  }

  twostate lemma ChainKept(s: seq<Element>)
    requires old(ChainLinked(s))
    requires forall x | x in s :: x.hhPrev == old(x.hhPrev) && x.hhNext == old(x.hhNext)
    ensures ChainLinked(s)
  {
  }
}
