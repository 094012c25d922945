/**
  The memory the trees live in: struct eb_node with the fields its typed variants append,
  and the tagged pointers that link them.
 */
module EbNodes {
  import opened Basics
  import opened BitStrings

  /** Enough for an unsigned long of any width: one element per process or thread bit. */
  type Scope = set<nat>

  /** A tagged pointer. In a branch the tag says what is below (leaf or node); in a parent
      pointer it says on which side of the parent this is. */
  datatype Troot = Troot(to: EbNode?, tag: bool)

  const EB_LEFT := false
  const EB_RGHT := true
  const EB_LEAF := false
  const EB_NODE := true
  const NULL := Troot(null, false)

  /** An eb_root is an EbNode of which only the branches are meaningful, as in the source,
      where both are reached through pointers to struct eb_root. */
  class EbNode {
    var left: Troot
    var right: Troot
    var node_p: Troot
    var leaf_p: Troot
    var bit: int
    var node_s: Scope
    var leaf_s: Scope

    const key: nat
    const bytes: seq<byte>
    const pfx: nat

    /** The key as its tree orders it; each typed layer says how it follows from the fields above. */
    ghost const bits: Bits

    constructor (key: nat, bytes: seq<byte>, pfx: nat, ghost bits: Bits)
      ensures left == right == node_p == leaf_p == NULL
      ensures this.key == key && this.bytes == bytes && this.pfx == pfx && this.bits == bits
    {
      left, right, node_p, leaf_p, bit := NULL, NULL, NULL, NULL, 0;
      node_s, leaf_s := {}, {};
      this.key, this.bytes, this.pfx, this.bits := key, bytes, pfx, bits;
    }
  }
}
