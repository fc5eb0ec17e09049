/** The element the table is instantiated with: `struct veth_pair` with its embedded UT_hash_handle. */
module Elements {

  /** The payload of an element, which no table operation changes. */
  datatype Data = Data(prefix: string, veth1: string, veth2: string)

  class Element {
    const data: Data
    var key: string
    var hashv: nat
    var prev: Element?
    var next: Element?
    var hhPrev: Element?
    var hhNext: Element?
    /** Whether the element has been handed to free(). */
    var freed: bool

    constructor (data: Data)
      ensures this.data == data && !freed
    {
      this.data := data;
      key, hashv := "", 0;
      prev, next, hhPrev, hhNext := null, null, null, null;
      freed := false;
    }

    /** `hh.next`, which only an element that is not freed still has. */
    function Next(): Element?
      requires !freed
      reads this`freed, this`next
    {
      next
    }

    /** `prefix`, which only an element that is not freed still has. */
    function Prefix(): string
      requires !freed
      reads this`freed
    {
      data.prefix
    }

    /** free(): an element is freed at most once. */
    method Free()
      requires !freed
      modifies this`freed
      ensures freed
    {
      freed := true;
    }
  }
}
