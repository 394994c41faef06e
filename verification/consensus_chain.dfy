/** Consensus headers and their digests.

    A digest is modelled symbolically: it is the header content it was computed from, so
    digests are injective and no header is its own ancestor. `Raw` stands for the 32-byte
    values that are the digest of no header, such as the zero hash. */
module ConsensusChain {

  datatype Digest = Of(header: Header) | Raw(id: nat)

  /** The content a header digest covers: number, parent digest and sub-dag. */
  datatype Header = Header(number: nat, parent: Digest, subDag: SubDag)

  /** `content` stands for the certificates of the sub-dag. */
  datatype SubDag = SubDag(leaderEpoch: nat, leaderRound: nat, content: nat)

  const ZERO_HASH := Raw(0)
  /** The default header, from which every chain starts. */
  const GENESIS := Header(0, ZERO_HASH, SubDag(0, 0, 0))
  const GENESIS_DIGEST := Of(GENESIS)

  /** Numbers step by one along the parent links of `h`. */
  predicate WellNumbered(h: Header) {
    h.parent.Of? ==> h.number == h.parent.header.number + 1 && WellNumbered(h.parent.header)
  }

  /** `a` is reached from `d` by following parent links. */
  predicate Ancestor(a: Digest, d: Digest) {
    a == d || (d.Of? && Ancestor(a, d.header.parent))
  }

  lemma {:induction false} ParentIsAncestor(a: Digest, d: Digest)
    requires Ancestor(a, d) && a.Of?
    ensures Ancestor(a.header.parent, d)
    decreases d
  {
    if a != d {
      ParentIsAncestor(a, d.header.parent);
    } else {
      assert Ancestor(a.header.parent, a.header.parent);
    }
  }

  lemma {:induction false} AncestorsCompose(a: Digest, b: Digest, d: Digest)
    requires Ancestor(a, b) && Ancestor(b, d)
    ensures Ancestor(a, d)
    decreases d
  {
    if b != d {
      AncestorsCompose(a, b, d.header.parent);
    }
  }

  lemma {:induction false} AncestorNumbers(a: Digest, d: Digest)
    requires Ancestor(a, d) && a.Of? && d.Of? && WellNumbered(d.header)
    ensures WellNumbered(a.header)
    ensures a.header.number <= d.header.number
    ensures a != d ==> a.header.number < d.header.number
  {
    if a != d {
      assert d.header.parent.Of?;
      AncestorNumbers(a, d.header.parent);
    }
  }
}
