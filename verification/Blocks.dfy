/** Blocks and their hashes. */
module Blocks {

  /** A block names its parent by hash. Hashing is taken to be collision free, so
      the hash of a block is modelled by the block itself; code that holds a hash
      without the block never looks inside it. */
  datatype Block = Genesis | Block(view: nat, parent: Hash, body: nat)

  type Hash = Block

  function View(h: Hash): nat {
    if h.Genesis? then 0 else h.view
  }

  /** Every block sits in a later view than its parent. */
  predicate WellFormed(h: Hash) {
    h.Genesis? || (View(h.parent) < h.view && WellFormed(h.parent))
  }

  /** `a` is `b` or one of its ancestors. */
  predicate Extends(b: Hash, a: Hash) {
    b == a || (b.Block? && Extends(b.parent, a))
  }

  lemma {:induction false} ExtendsTransitive(c: Hash, b: Hash, a: Hash)
    requires Extends(c, b) && Extends(b, a)
    ensures Extends(c, a)
  {
    if c != b {
      ExtendsTransitive(c.parent, b, a);
    }
  }

  lemma {:induction false} ExtendsView(b: Hash, a: Hash)
    requires WellFormed(b) && Extends(b, a)
    ensures WellFormed(a)
    ensures View(a) <= View(b)
    ensures View(a) == View(b) ==> a == b
  {
    if a != b {
      ExtendsView(b.parent, a);
    }
  }

  lemma {:induction false} ExtendsGenesis(b: Hash)
    ensures Extends(b, Genesis)
  {
    if b.Block? {
      ExtendsGenesis(b.parent);
    }
  }
}
