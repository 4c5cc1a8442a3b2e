/**
 The handle table: a fixed number of slots, each empty or holding a resource that knows
 its own handle.
 */
module Resource {
  const EINVAL := 22
  const EBUSY := 16

  class Res {
    var handle: nat

    constructor ()
    {
      handle := 0;
    }
  }

  class Table {
    const addr: array<Res?>

    /** Whoever is in a slot carries the number of the slot; so nobody is in two. */
    ghost predicate Valid()
      reads this, addr, addr[..]
    {
      forall i :: 0 <= i < addr.Length && addr[i] != null ==> addr[i].handle == i
    }

    constructor (size: nat)
      requires size > 0
      ensures Valid() && fresh(addr) && addr.Length == size
      ensures forall i :: 0 <= i < size ==> addr[i] == null
    {
      addr := new Res?[size](_ => null);
    }

    /** The resource goes to the first empty slot, if there is one. */
    method Alloc(res: Res?) returns (ret: int)
      requires Valid() && (res != null ==> res !in addr[..])
      modifies addr, res
      ensures Valid()
      ensures res == null ==> ret == -EINVAL
      ensures res != null ==> (ret == -EBUSY <==> old(null !in addr[..]))
      ensures ret < 0 ==> addr[..] == old(addr[..]) && (ret == -EINVAL || ret == -EBUSY)
      ensures ret < 0 && res != null ==> res.handle == old(res.handle)
      ensures ret >= 0 ==> ret < addr.Length && res != null && res.handle == ret
                           && old(addr[..])[ret] == null && old(null !in addr[..ret])
                           && addr[..] == old(addr[..])[ret := res]
    {
      if res == null {
        return -EINVAL;
      }
      for i := 0 to addr.Length
        invariant addr[..] == old(addr[..]) && res.handle == old(res.handle) && Valid()
        invariant null !in addr[..i]
      {
        if addr[i] != null {
          continue;
        }
        addr[i] := res;
        res.handle := i;
        assert forall j :: 0 <= j < addr.Length && j != i ==> addr[j] == old(addr[..])[j];
        return i;
      }
      return -EBUSY;
    }

    method AllocAt(res: Res?, index: nat) returns (ret: int)
      requires Valid() && (res != null ==> res !in addr[..])
      modifies addr, res
      ensures Valid()
      ensures ret == -EINVAL <==> res == null || index >= addr.Length
      ensures ret == -EBUSY <==> res != null && index < addr.Length && old(addr[..])[index] != null
      ensures ret < 0 ==> addr[..] == old(addr[..]) && (ret == -EINVAL || ret == -EBUSY)
      ensures ret >= 0 ==> ret == index && res.handle == index && addr[..] == old(addr[..])[index := res]
    {
      if res == null || index >= addr.Length {
        return -EINVAL;
      }
      if addr[index] != null {
        return -EBUSY;
      }
      addr[index] := res;
      res.handle := index;
      assert forall j :: 0 <= j < addr.Length && j != index ==> addr[j] == old(addr[..])[j];
      return index;
    }

    /** What is found under a handle has that handle. */
    method Get(index: nat) returns (res: Res?)
      requires Valid()
      ensures res == if index < addr.Length then addr[index] else null
      ensures res != null ==> res.handle == index
    {
      if index >= addr.Length {
        return null;
      }
      res := addr[index];
    }

    method Free(index: nat) returns (ret: int)
      requires Valid()
      modifies addr
      ensures Valid()
      ensures ret == 0 <==> index < addr.Length && old(addr[..])[index] != null
      ensures ret == 0 || ret == -EINVAL
      ensures addr[..] == if ret == 0 then old(addr[..])[index := null] else old(addr[..])
    {
      if index >= addr.Length || addr[index] == null {
        return -EINVAL;
      }
      addr[index] := null;
      return 0;
    }
  }
}
