/** Actor references as the endpoint writer sees them (the `actor.PID` message). */
module Actor {

  /** Go's `uint32`, the width of a request correlator. */
  newtype uint32 = x: int | 0 <= x < 0x1_0000_0000

  /** An actor reference: node address, process id on that node, and request correlator. */
  datatype Pid = Pid(address: string, id: string, requestId: uint32)

  /** The string a reference is interned under: address and id joined by a slash. */
  function Key(p: Pid): string
  {
    p.address + "/" + p.id
  }

  /** The copy stored in a batch table: the same reference with its request id cleared. */
  function Strip(p: Pid): (r: Pid)
    ensures r.requestId == 0
    ensures r.address == p.address && r.id == p.id
  {
    p.(requestId := 0)
  }

  /** The request id never takes part in the interning key. */
  lemma KeyIgnoresRequestId(p: Pid, q: Pid)
    requires p.address == q.address && p.id == q.id
    ensures Key(p) == Key(q)
    ensures Key(Strip(p)) == Key(p)
  {
  }

  /**
   * The key is not injective on (address, id) pairs: any pair whose address
   * ends in "/x" collides with the pair that moves "x/" to the front of the id.
   */
  lemma {:induction false} KeyCollision(a: string, b: string, c: string, r1: uint32, r2: uint32)
    ensures Pid(a + "/" + b, c, r1).address != Pid(a, b + "/" + c, r2).address
    ensures Key(Pid(a + "/" + b, c, r1)) == Key(Pid(a, b + "/" + c, r2))
  {
    assert |a + "/" + b| != |a|;
    calc {
      Key(Pid(a + "/" + b, c, r1));
      (a + "/" + b) + "/" + c;
      { assert (a + "/" + b) + "/" + c == a + "/" + (b + "/" + c); }
      a + "/" + (b + "/" + c);
      Key(Pid(a, b + "/" + c, r2));
    }
  }
}
