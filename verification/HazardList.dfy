/** The slot list and one thread's reclaimer over it, with no other thread in between. */
module HazardLists {
  import opened Reclaimers

  class HazardPointer {
    var flag: bool
    var ptr: Ptr
    var next: HazardPointer?

    constructor ()
      ensures !flag && ptr == NULL && next == null
    {
      flag, ptr, next := false, NULL, null;
    }
  }

  ghost predicate IsList(spine: seq<HazardPointer>)
    reads spine
  {
    && (forall i :: 0 < i < |spine| ==> spine[i - 1].next == spine[i])
    && (spine != [] ==> spine[|spine| - 1].next == null)
    && (forall i, j :: 0 <= i < j < |spine| ==> spine[i] != spine[j])
  }

  ghost predicate Marks(spine: seq<HazardPointer>, ptr: Ptr)
    reads spine
  {
    exists i :: 0 <= i < |spine| && spine[i].ptr == ptr
  }

  /** The slots of all threads, the newest at the head; never empty. */
  class HazardPointerList {
    var head: HazardPointer
    var size: nat
    ghost var spine: seq<HazardPointer>

    ghost predicate Valid()
      reads this, spine
    {
      spine != [] && head == spine[0] && IsList(spine)
    }

    constructor ()
      ensures Valid() && |spine| == 1 && size == 0 && !head.flag && head.ptr == NULL && fresh(head)
    {
      var first := new HazardPointer();
      head, size, spine := first, 0, [first];
    }

    /** A new slot, already taken, at the head. */
    method Push() returns (hp: HazardPointer)
      requires Valid()
      modifies this
      ensures Valid() && fresh(hp) && spine == [hp] + old(spine) && size == old(size) + 1
      ensures hp.flag && hp.ptr == NULL
    {
      hp := new HazardPointer();
      hp.flag := true;
      size := size + 1;
      hp.next := head;
      head := hp;
      spine := [hp] + spine;
    }
  }

  class Reclaimer {
    const global: HazardPointerList
    var hpList: seq<HazardPointer>
    var reclaimMap: set<Ptr>

    constructor (global: HazardPointerList)
      ensures this.global == global && hpList == [] && reclaimMap == {}
    {
      this.global, hpList, reclaimMap := global, [], {};
    }

    ghost predicate Valid()
      reads this, global, global.spine
    {
      && global.Valid()
      && (forall i :: 0 <= i < |global.spine| && !global.spine[i].flag ==> global.spine[i].ptr == NULL)
      && (forall i :: 0 <= i < |hpList| ==> hpList[i] in global.spine && hpList[i].flag)
      && (forall i, j :: 0 <= i < j < |hpList| ==> hpList[i] != hpList[j])
    }

    /** The first slot from the head that no thread has, or else a new one at the head, becomes this thread's. */
    method TryAcquireHazardPointer()
      requires Valid()
      modifies this`hpList, global, global.spine
      ensures Valid() && |hpList| == |old(hpList)| + 1 && hpList[..|old(hpList)|] == old(hpList)
      ensures var hp := hpList[|old(hpList)|];
        && hp.ptr == NULL && hp !in old(hpList)
        && (if fresh(hp) then global.spine == [hp] + old(global.spine) && global.size == old(global.size) + 1
            else global.spine == old(global.spine) && global.size == old(global.size) && !old(hp.flag))
      ensures forall n :: n in old(global.spine) ==> n.ptr == old(n.ptr) && (n.flag == old(n.flag) || n == hpList[|old(hpList)|])
    {
      var hp := FindIdle();
      if hp != null {
        hp.flag := true;
      } else {
        hp := global.Push();
      }
      hpList := hpList + [hp];
    }

    method FindIdle() returns (hp: HazardPointer?)
      requires global.Valid()
      ensures hp != null ==> hp in global.spine && !hp.flag
      ensures hp == null ==> forall i :: 0 <= i < |global.spine| ==> global.spine[i].flag
    {
      var p: HazardPointer? := global.head;
      ghost var i := 0;
      while p != null
        invariant i <= |global.spine| && p == if i < |global.spine| then global.spine[i] else null
        invariant forall j :: 0 <= j < i ==> global.spine[j].flag
        decreases |global.spine| - i
      {
        if !p.flag {
          return p;
        }
        p := p.next;
        i := i + 1;
      }
      return null;
    }

    /** The pointer goes into the first own slot that marks nothing, or into one acquired for it; no mark is lost. */
    method MarkHazard(ptr: Ptr) returns (index: int)
      requires Valid()
      modifies this`hpList, global, global.spine
      ensures Valid()
      ensures ptr == NULL ==> index == -1 && unchanged(this`hpList) && unchanged(global) && unchanged(global.spine)
      ensures ptr != NULL ==>
        0 <= index < |hpList| && |old(hpList)| <= |hpList| && hpList[..|old(hpList)|] == old(hpList) && hpList[index].ptr == ptr
      ensures ptr != NULL ==>
        var hp := hpList[index]; fresh(hp) || (hp in old(global.spine) && old(hp.ptr) == NULL)
      ensures ptr != NULL ==> forall i :: 0 <= i < index && i < |old(hpList)| ==> old(hpList[i].ptr) != NULL
      ensures forall n :: n in old(global.spine) && !(ptr != NULL && n == hpList[index]) ==> n.ptr == old(n.ptr)
    {
      if ptr == NULL {
        return -1;
      }
      var i := 0;
      while i < |hpList|
        invariant 0 <= i <= |hpList| && forall j :: 0 <= j < i ==> hpList[j].ptr != NULL
      {
        if hpList[i].ptr == NULL {
          StoreAt(i, ptr);
          return i;
        }
        i := i + 1;
      }
      TryAcquireHazardPointer();
      index := |hpList| - 1;
      StoreAt(index, ptr);
    }

    method StoreAt(i: nat, ptr: Ptr)
      requires Valid() && i < |hpList|
      modifies {hpList[i]}`ptr
      ensures Valid() && hpList[i].ptr == ptr
    {
      hpList[i].ptr := ptr;
    }

    method UnMarkHazard(index: int)
      requires Valid() && -1 <= index < |hpList|
      modifies global.spine
      ensures Valid() && (index >= 0 ==> hpList[index].ptr == NULL)
      ensures forall n :: n in global.spine && !(index >= 0 && n == hpList[index]) ==> n.ptr == old(n.ptr)
    {
      if index == -1 {
        return;
      }
      StoreAt(index, NULL);
    }

    method ReclaimLater(ptr: Ptr)
      modifies `reclaimMap
      ensures reclaimMap == old(reclaimMap) + {ptr}
    {
      reclaimMap := reclaimMap + {ptr};
    }

    /** Whether some slot has the pointer. */
    method Hazard(ptr: Ptr) returns (found: bool)
      requires global.Valid()
      ensures found <==> Marks(global.spine, ptr)
    {
      var p: HazardPointer? := global.head;
      ghost var i := 0;
      while p != null
        invariant i <= |global.spine| && p == if i < |global.spine| then global.spine[i] else null
        invariant forall j :: 0 <= j < i ==> global.spine[j].ptr != ptr
        decreases |global.spine| - i
      {
        if p.ptr == ptr {
          return true;
        }
        p := p.next;
        i := i + 1;
      }
      return false;
    }

    /** Below four pending for each counted slot, nothing; or else all that no slot has are freed, and only they. */
    method ReclaimNoHazardPointer() returns (freed: seq<Ptr>)
      requires global.Valid()
      modifies `reclaimMap
      ensures |old(reclaimMap)| < COEFFICIENT * global.size ==> freed == [] && reclaimMap == old(reclaimMap)
      ensures |old(reclaimMap)| >= COEFFICIENT * global.size ==>
        forall p :: p in old(reclaimMap) ==>
          (p in freed <==> p == NULL || !Marks(global.spine, p)) && (p in reclaimMap <==> p !in freed)
      ensures forall p :: p in freed || p in reclaimMap ==> p in old(reclaimMap)
      ensures forall i, j :: 0 <= i < j < |freed| ==> freed[i] != freed[j]
    {
      if |reclaimMap| < COEFFICIENT * global.size {
        return [];
      }
      var kept := Seen();
      freed := [];
      var rest := reclaimMap;
      while rest != {}
        invariant rest <= old(reclaimMap) && reclaimMap <= old(reclaimMap)
        invariant forall p :: p in freed ==> p in old(reclaimMap) && p !in rest && p !in kept
        invariant forall p :: p in old(reclaimMap) && p !in rest && p !in kept ==> p in freed
        invariant forall p :: p in old(reclaimMap) ==> (p in reclaimMap <==> p !in freed)
        invariant forall i, j :: 0 <= i < j < |freed| ==> freed[i] != freed[j]
        decreases |rest|
      {
        var p :| p in rest;
        rest := rest - {p};
        if p !in kept {
          freed := freed + [p];
          reclaimMap := reclaimMap - {p};
        }
      }
    }

    method Seen() returns (seen: set<Ptr>)
      requires global.Valid()
      ensures forall p :: p in seen <==> p != NULL && Marks(global.spine, p)
    {
      seen := {};
      var p: HazardPointer? := global.head;
      ghost var i := 0;
      while p != null
        invariant i <= |global.spine| && p == if i < |global.spine| then global.spine[i] else null
        invariant forall q :: q in seen ==> q != NULL && Marks(global.spine, q)
        invariant forall j :: 0 <= j < i && global.spine[j].ptr != NULL ==> global.spine[j].ptr in seen
        decreases |global.spine| - i
      {
        if p.ptr != NULL {
          seen := seen + {p.ptr};
        }
        p := p.next;
        i := i + 1;
      }
    }
  }
}
