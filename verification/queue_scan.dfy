/**
 * The queue-family scan loop that `Factory::findQueueFamilies` and
 * `UtilFunctions::findQueueFamilies` share: walk the families in index
 * order, record for each required kind the index of the current family when
 * it supports that kind (a later match overwrites an earlier one), and stop
 * after the first family at which the stopping condition holds.
 */
module QueueScan {
  import opened Wrappers
  import opened VkTypes

  datatype QueueKind = Compute | Transfer | Graphics | Present

  /** Which kinds the caller requires; `present` is `surface != nullptr`. */
  datatype Requirements = Requirements(compute: bool, transfer: bool, graphics: bool, present: bool) {
    predicate Requires(k: QueueKind) {
      match k
      case Compute => compute
      case Transfer => transfer
      case Graphics => graphics
      case Present => present
    }
  }

  /** The four `std::optional<uint32_t>` family fields. */
  datatype FamilySlots = FamilySlots(compute: Option<nat>, transfer: Option<nat>, graphics: Option<nat>, present: Option<nat>) {
    function Get(k: QueueKind): Option<nat> {
      match k
      case Compute => compute
      case Transfer => transfer
      case Graphics => graphics
      case Present => present
    }
  }

  const NoFamilies := FamilySlots(None, None, None, None)

  predicate Supports(family: QueueFamily, k: QueueKind) {
    match k
    case Compute => HasAny(family.queueFlags, QUEUE_COMPUTE_BIT)
    case Transfer => HasAny(family.queueFlags, QUEUE_TRANSFER_BIT)
    case Graphics => HasAny(family.queueFlags, QUEUE_GRAPHICS_BIT)
    case Present => family.presentSupport
  }

  /** The body of one loop iteration: overwrite each required kind's slot with
      `i` when family `i` supports it. */
  function RecordFamily(req: Requirements, slots: FamilySlots, family: QueueFamily, i: nat): FamilySlots {
    FamilySlots(
      if req.compute && Supports(family, Compute) then Some(i) else slots.compute,
      if req.transfer && Supports(family, Transfer) then Some(i) else slots.transfer,
      if req.graphics && Supports(family, Graphics) then Some(i) else slots.graphics,
      if req.present && Supports(family, Present) then Some(i) else slots.present
    )
  }

  /** `!required || family.has_value()` for each kind, conjoined. */
  predicate AllFound(req: Requirements, slots: FamilySlots) {
    && (!req.compute || slots.compute.Some?)
    && (!req.transfer || slots.transfer.Some?)
    && (!req.graphics || slots.graphics.Some?)
    && (!req.present || slots.present.Some?)
  }

  /**
   * The scan from family `i` on. `req` decides what is recorded, `stop` what
   * must be found before the loop breaks. Returns the slots and whether the
   * loop left by `break`.
   */
  function Scan(families: seq<QueueFamily>, req: Requirements, stop: Requirements, slots: FamilySlots, i: nat): (FamilySlots, bool)
    requires i <= |families|
    decreases |families| - i
  {
    if i == |families| then (slots, false)
    else
      var next := RecordFamily(req, slots, families[i], i);
      if AllFound(stop, next) then (next, true)
      else Scan(families, req, stop, next, i + 1)
  }

  // ---------------------------------------------------------------------
  // Reference definitions

  /** The largest index below `n` whose family supports `k`. */
  function LastMatch(families: seq<QueueFamily>, k: QueueKind, n: nat): (r: Option<nat>)
    requires n <= |families|
    ensures r.Some? ==> r.value < n && Supports(families[r.value], k)
    ensures r.Some? ==> forall j :: r.value < j < n ==> !Supports(families[j], k)
    ensures r.None? ==> forall j :: 0 <= j < n ==> !Supports(families[j], k)
    decreases n
  {
    if n == 0 then None
    else if Supports(families[n - 1], k) then Some(n - 1)
    else LastMatch(families, k, n - 1)
  }

  /** The slots after scanning the first `n` families without stopping. */
  function SlotsAt(families: seq<QueueFamily>, req: Requirements, n: nat): FamilySlots
    requires n <= |families|
  {
    FamilySlots(
      if req.compute then LastMatch(families, Compute, n) else None,
      if req.transfer then LastMatch(families, Transfer, n) else None,
      if req.graphics then LastMatch(families, Graphics, n) else None,
      if req.present then LastMatch(families, Present, n) else None
    )
  }

  /** Every kind `stop` requires is supported by one of the first `n` families. */
  predicate Covered(families: seq<QueueFamily>, stop: Requirements, n: nat)
    requires n <= |families|
  {
    forall k :: stop.Requires(k) ==> LastMatch(families, k, n).Some?
  }

  // ---------------------------------------------------------------------
  // Lemmas

  /** A slot holds the largest supporting index below `n` for a required kind
      and stays empty for a kind that is not required. */
  lemma SlotsAtMeaning(families: seq<QueueFamily>, req: Requirements, n: nat, k: QueueKind)
    requires n <= |families|
    ensures !req.Requires(k) ==> SlotsAt(families, req, n).Get(k).None?
    ensures req.Requires(k) && SlotsAt(families, req, n).Get(k).Some? ==>
      var j := SlotsAt(families, req, n).Get(k).value;
      j < n && Supports(families[j], k) && forall j' :: j < j' < n ==> !Supports(families[j'], k)
    ensures req.Requires(k) && SlotsAt(families, req, n).Get(k).None? ==>
      forall j :: 0 <= j < n ==> !Supports(families[j], k)
  {
  }

  lemma RecordFamilyStep(families: seq<QueueFamily>, req: Requirements, i: nat)
    requires i < |families|
    ensures RecordFamily(req, SlotsAt(families, req, i), families[i], i) == SlotsAt(families, req, i + 1)
  {
  }

  lemma AllFoundAt(families: seq<QueueFamily>, req: Requirements, stop: Requirements, n: nat)
    requires n <= |families|
    requires forall k :: stop.Requires(k) ==> req.Requires(k)
    ensures AllFound(stop, SlotsAt(families, req, n)) <==> Covered(families, stop, n)
  {
    if AllFound(stop, SlotsAt(families, req, n)) {
      forall k | stop.Requires(k) ensures LastMatch(families, k, n).Some? {
        match k
        case Compute =>
        case Transfer =>
        case Graphics =>
        case Present =>
      }
    } else {
      assert !Covered(families, stop, n) by {
        if !(!stop.compute || SlotsAt(families, req, n).compute.Some?) {
          assert stop.Requires(Compute);
        } else if !(!stop.transfer || SlotsAt(families, req, n).transfer.Some?) {
          assert stop.Requires(Transfer);
        } else if !(!stop.graphics || SlotsAt(families, req, n).graphics.Some?) {
          assert stop.Requires(Graphics);
        } else {
          assert stop.Requires(Present);
        }
      }
    }
  }

  /** Once the first `n` families cover the stopping kinds, so do more. */
  lemma CoveredMonotone(families: seq<QueueFamily>, stop: Requirements, n: nat, m: nat)
    requires n <= m <= |families|
    requires Covered(families, stop, n)
    ensures Covered(families, stop, m)
  {
    forall k | stop.Requires(k) ensures LastMatch(families, k, m).Some? {
      var j := LastMatch(families, k, n).value;
      assert Supports(families[j], k);
    }
  }

  /** The first `l` families form the shortest prefix covering the stopping kinds. */
  predicate FirstCover(families: seq<QueueFamily>, stop: Requirements, l: nat) {
    && 1 <= l <= |families|
    && Covered(families, stop, l)
    && forall m :: 1 <= m < l ==> !Covered(families, stop, m)
  }

  /** Some prefix longer than `i` covers the stopping kinds. */
  predicate CoveredAfter(families: seq<QueueFamily>, stop: Requirements, i: nat) {
    exists m :: i < m <= |families| && Covered(families, stop, m)
  }

  /** What a scan resumed after `i` families yields: it breaks iff a longer
      prefix covers the stopping kinds, then holding the slots of the
      shortest such prefix; otherwise it holds the slots of all families. */
  ghost predicate ScannedFrom(families: seq<QueueFamily>, req: Requirements, stop: Requirements, i: nat,
                              result: (FamilySlots, bool))
  {
    && (result.1 <==> CoveredAfter(families, stop, i))
    && (result.1 ==> exists l :: i < l && FirstCover(families, stop, l) && result.0 == SlotsAt(families, req, l))
    && (!result.1 ==> result.0 == SlotsAt(families, req, |families|))
  }

  /**
   * What the scan computes, started from the state after `i` families none of
   * whose prefixes (of length 1..i) satisfied the stopping condition.
   */
  lemma {:induction false} ScanMeaning(families: seq<QueueFamily>, req: Requirements, stop: Requirements, i: nat)
    requires i <= |families|
    requires forall k :: stop.Requires(k) ==> req.Requires(k)
    requires forall m :: 1 <= m <= i ==> !Covered(families, stop, m)
    ensures ScannedFrom(families, req, stop, i, Scan(families, req, stop, SlotsAt(families, req, i), i))
    decreases |families| - i
  {
    var result := Scan(families, req, stop, SlotsAt(families, req, i), i);
    if i < |families| {
      RecordFamilyStep(families, req, i);
      AllFoundAt(families, req, stop, i + 1);
      var next := SlotsAt(families, req, i + 1);
      if Covered(families, stop, i + 1) {
        assert result == (next, true);
        assert FirstCover(families, stop, i + 1);
        assert CoveredAfter(families, stop, i);
      } else {
        assert result == Scan(families, req, stop, next, i + 1);
        ScanMeaning(families, req, stop, i + 1);
        if CoveredAfter(families, stop, i) {
          var m :| i < m <= |families| && Covered(families, stop, m);
          assert CoveredAfter(families, stop, i + 1);
        }
        if result.1 {
          var l :| i + 1 < l && FirstCover(families, stop, l) && result.0 == SlotsAt(families, req, l);
          assert CoveredAfter(families, stop, i) by {
            assert i < l <= |families| && Covered(families, stop, l);
          }
        }
      }
    } else {
      assert !CoveredAfter(families, stop, i);
    }
  }

  /** For a scan from the start: it breaks iff there is at least one family and
      all of them together cover the stopping kinds. */
  lemma ScanFromStart(families: seq<QueueFamily>, req: Requirements, stop: Requirements)
    requires forall k :: stop.Requires(k) ==> req.Requires(k)
    ensures var result := Scan(families, req, stop, NoFamilies, 0);
      && (result.1 <==> |families| > 0 && Covered(families, stop, |families|))
      && (result.1 ==> exists l :: FirstCover(families, stop, l) && result.0 == SlotsAt(families, req, l))
      && (!result.1 ==> result.0 == SlotsAt(families, req, |families|))
  {
    assert SlotsAt(families, req, 0) == NoFamilies;
    ScanMeaning(families, req, stop, 0);
    var result := Scan(families, req, stop, NoFamilies, 0);
    if |families| > 0 && Covered(families, stop, |families|) {
      assert CoveredAfter(families, stop, 0);
    }
    if result.1 {
      var m :| 0 < m <= |families| && Covered(families, stop, m);
      CoveredMonotone(families, stop, m, |families|);
    }
  }
}
