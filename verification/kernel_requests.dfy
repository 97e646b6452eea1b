/** Sequences of create_simple_map calls as updates of an abstract map from slots to blocks. */
module KernelRequests {
  import opened Words
  import opened MemoryLayout
  import opened KernelMap
  import KernelWalk

  /** A 2 MB slot of the 16 GB window. */
  predicate IsSlot(s: int) {
    0 <= s < 8192
  }

  datatype Request = Request(va: u64, pa: u64, size: u64, memType: u64) {

    predicate Fits() {
      Mappable(va, pa, size, memType)
    }

    /** The blocks one call lays down, by slot. */
    function Overlay(): map<int, int> {
      map s: int | SlotOf(va) <= s < SlotOf(va) + SlotCount(size) && IsSlot(s)
        :: pa + 0x701 + 4 * memType + 0x20_0000 * (s - SlotOf(va))
    }
  }

  predicate AllFit(requests: seq<Request>) {
    forall r | r in requests :: r.Fits()
  }

  /** The PMD words as a map from slots. */
  function Slots(p: Placement, m: seq<u64>): map<int, int>
    requires p.Valid(|m|)
  {
    p.TableWords(|m|);
    map s: int | 0 <= s < 8192 && IsSlot(s) :: m[p.PmdWord() + s]
  }

  /** The abstract meaning of a sequence of calls: each overlays what came before. */
  function Overlaid(slots: map<int, int>, requests: seq<Request>): map<int, int>
    decreases |requests|
  {
    if requests == [] then slots else Overlaid(slots + requests[0].Overlay(), requests[1..])
  }

  /** Memory after the calls. */
  function AfterAll(p: Placement, m: seq<u64>, requests: seq<Request>): (r: seq<u64>)
    requires p.Valid(|m|) && AllFit(requests)
    ensures |r| == |m|
    decreases |requests|
  {
    if requests == [] then m
    else
      assert requests[0] in requests;
      var q := requests[0];
      AfterAll(p, SimpleMap(p, m, q.va, q.pa, q.size, q.memType), requests[1..])
  }

  lemma RequestOverlays(p: Placement, m: seq<u64>, q: Request)
    requires p.Valid(|m|) && q.Fits()
    ensures Slots(p, SimpleMap(p, m, q.va, q.pa, q.size, q.memType)) == Slots(p, m) + q.Overlay()
    ensures forall j | 0 <= j < |m| && KernelWalk.OutsidePmd(p, j) ::
              SimpleMap(p, m, q.va, q.pa, q.size, q.memType)[j] == m[j]
  {
    p.TableWords(|m|);
    hide Placement.Valid, Placement.PmdWord, SimpleMap;
    forall j: nat | j < |m|
      ensures var k := j - p.PmdWord() - SlotOf(q.va);
              SimpleMap(p, m, q.va, q.pa, q.size, q.memType)[j]
              == if 0 <= k < SlotCount(q.size) then q.pa + 0x701 + 4 * q.memType + 0x20_0000 * k else m[j]
    {
      KernelWalk.SimpleMapAt(p, m, q.va, q.pa, q.size, q.memType, j);
    }
  }

  /** Any sequence of calls inside the window acts on the PMD words as the abstract overlays act on the
      slots, and on no other word. */
  lemma {:induction false} RequestsRefine(p: Placement, m: seq<u64>, requests: seq<Request>)
    requires p.Valid(|m|) && AllFit(requests)
    ensures Slots(p, AfterAll(p, m, requests)) == Overlaid(Slots(p, m), requests)
    ensures forall j | 0 <= j < |m| && KernelWalk.OutsidePmd(p, j) :: AfterAll(p, m, requests)[j] == m[j]
    decreases |requests|
  {
    hide Placement.Valid, Slots, SimpleMap, Mappable, Request.Overlay;
    if requests == [] {
    } else {
      assert requests[0] in requests;
      var q := requests[0];
      RequestOverlays(p, m, q);
      RequestsRefine(p, SimpleMap(p, m, q.va, q.pa, q.size, q.memType), requests[1..]);
    }
  }

  /** create_kernel_map is the links and then three requests. */
  lemma KernelMapIsRequests(p: Placement, m: seq<u64>)
    requires p.Valid(|m|)
    ensures var requests := [Request(KIMAGE_VADDR, p.load, p.Size(), MT_NORMAL),
                             Request(PAGE_OFFSET, PHYS_OFFSET, PHYS_SIZE, MT_NORMAL),
                             Request(DEVICE_START, DEVICE_PHYS_OFFSET, DEVICE_PHYS_SIZE, MT_DEVICE_nGnRnE)];
            AllFit(requests) && KernelTables(p, m) == AfterAll(p, Links(p, m), requests)
  {
    RequestsMappable(p, |m|);
    hide Placement.Valid, SimpleMap, Mappable, Links;
    var a := Request(KIMAGE_VADDR, p.load, p.Size(), MT_NORMAL);
    var b := Request(PAGE_OFFSET, PHYS_OFFSET, PHYS_SIZE, MT_NORMAL);
    var c := Request(DEVICE_START, DEVICE_PHYS_OFFSET, DEVICE_PHYS_SIZE, MT_DEVICE_nGnRnE);
    assert [a, b, c][1..] == [b, c] && [b, c][1..] == [c] && [c][1..] == [];
    assert AllFit([c]) && AllFit([b, c]) && AllFit([a, b, c]);
    var m3 := LinearMap(p, ImageMap(p, Links(p, m)));
    assert AfterAll(p, m3, [c]) == AfterAll(p, DeviceMap(p, m3), []);
  }
}
