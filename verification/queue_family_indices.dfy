/**
 * `QueueFamilyIndices` (src/main/cpp/exqudens/vulkan/model/QueueFamilyIndices.cpp):
 * four required flags with their optional family indices. The member
 * initialisers make every kind required and every family empty. The
 * constructor, copy and swap of this file handle transfer, graphics and
 * present only: the compute pair keeps its initial value (or stays where it
 * was), and completeness ignores it.
 */
module QueueFamilyIndices {
  import opened Wrappers
  import opened QueueScan

  datatype Indices = Indices(
    computeFamilyRequired: bool,
    computeFamily: Option<nat>,
    transferFamilyRequired: bool,
    transferFamily: Option<nat>,
    graphicsFamilyRequired: bool,
    graphicsFamily: Option<nat>,
    presentFamilyRequired: bool,
    presentFamily: Option<nat>
  ) {
    /** The required flags as a `QueueScan.Requirements`. */
    function Required(): Requirements {
      Requirements(computeFamilyRequired, transferFamilyRequired, graphicsFamilyRequired, presentFamilyRequired)
    }

    /** The families as a `QueueScan.FamilySlots`. */
    function Slots(): FamilySlots {
      FamilySlots(computeFamily, transferFamily, graphicsFamily, presentFamily)
    }
  }

  /** The default-constructed value: everything required, nothing found. */
  const Default := Indices(true, None, true, None, true, None, true, None)

  /** The six-argument constructor: the compute pair keeps its initialiser. */
  function Construct(transferFamilyRequired: bool, transferFamily: Option<nat>,
                     graphicsFamilyRequired: bool, graphicsFamily: Option<nat>,
                     presentFamilyRequired: bool, presentFamily: Option<nat>): (r: Indices)
    ensures r.computeFamilyRequired && r.computeFamily.None?
    ensures r.transferFamilyRequired == transferFamilyRequired && r.transferFamily == transferFamily
    ensures r.graphicsFamilyRequired == graphicsFamilyRequired && r.graphicsFamily == graphicsFamily
    ensures r.presentFamilyRequired == presentFamilyRequired && r.presentFamily == presentFamily
  {
    Default.(transferFamilyRequired := transferFamilyRequired, transferFamily := transferFamily,
             graphicsFamilyRequired := graphicsFamilyRequired, graphicsFamily := graphicsFamily,
             presentFamilyRequired := presentFamilyRequired, presentFamily := presentFamily)
  }

  /** `isComplete`: every required transfer, graphics and present family is
      present; the compute pair is not consulted. */
  predicate IsComplete(q: Indices) {
    && (!q.transferFamilyRequired || q.transferFamily.Some?)
    && (!q.graphicsFamilyRequired || q.graphicsFamily.Some?)
    && (!q.presentFamilyRequired || q.presentFamily.Some?)
  }

  /** The stopping requirements `isComplete` amounts to: the required flags
      with compute switched off. */
  function CompletenessRequirements(q: Indices): (r: Requirements)
    ensures !r.compute
    ensures forall k :: k != Compute ==> (r.Requires(k) <==> q.Required().Requires(k))
  {
    q.Required().(compute := false)
  }

  /** `isComplete` is the scan's `AllFound` test with compute switched off,
      and it does not depend on the compute pair at all. */
  lemma IsCompleteIgnoresCompute(q: Indices, required: bool, family: Option<nat>)
    ensures IsComplete(q) <==> AllFound(CompletenessRequirements(q), q.Slots())
    ensures IsComplete(q.(computeFamilyRequired := required, computeFamily := family)) <==> IsComplete(q)
  {
  }

  /** Finding more families never makes a complete value incomplete. */
  lemma IsCompleteMonotone(q: Indices, k: QueueKind, i: nat)
    requires IsComplete(q)
    ensures IsComplete(match k
      case Compute => q.(computeFamily := Some(i))
      case Transfer => q.(transferFamily := Some(i))
      case Graphics => q.(graphicsFamily := Some(i))
      case Present => q.(presentFamily := Some(i)))
  {
  }

  /** The copy constructor delegates to the six-argument one, so the copy
      carries the source's transfer, graphics and present pairs and a fresh
      compute pair. */
  function Copy(other: Indices): (r: Indices)
    ensures r.computeFamilyRequired && r.computeFamily.None?
    ensures r.transferFamilyRequired == other.transferFamilyRequired && r.transferFamily == other.transferFamily
    ensures r.graphicsFamilyRequired == other.graphicsFamilyRequired && r.graphicsFamily == other.graphicsFamily
    ensures r.presentFamilyRequired == other.presentFamilyRequired && r.presentFamily == other.presentFamily
  {
    Construct(other.transferFamilyRequired, other.transferFamily,
              other.graphicsFamilyRequired, other.graphicsFamily,
              other.presentFamilyRequired, other.presentFamily)
  }

  /** `a` carries the transfer, graphics and present pairs of `b`. */
  predicate SamePairs(a: Indices, b: Indices) {
    && a.transferFamilyRequired == b.transferFamilyRequired && a.transferFamily == b.transferFamily
    && a.graphicsFamilyRequired == b.graphicsFamilyRequired && a.graphicsFamily == b.graphicsFamily
    && a.presentFamilyRequired == b.presentFamilyRequired && a.presentFamily == b.presentFamily
  }

  /** `swap`: exchanges the transfer, graphics and present pairs; each side
      keeps its own compute pair. */
  function Swap(first: Indices, second: Indices): (r: (Indices, Indices))
    ensures r.0.computeFamilyRequired == first.computeFamilyRequired && r.0.computeFamily == first.computeFamily
    ensures r.1.computeFamilyRequired == second.computeFamilyRequired && r.1.computeFamily == second.computeFamily
    ensures SamePairs(r.0, second) && SamePairs(r.1, first)
    ensures IsComplete(r.0) <==> IsComplete(second)
    ensures IsComplete(r.1) <==> IsComplete(first)
  {
    (second.(computeFamilyRequired := first.computeFamilyRequired, computeFamily := first.computeFamily),
     first.(computeFamilyRequired := second.computeFamilyRequired, computeFamily := second.computeFamily))
  }

  /** Swapping twice restores both values. */
  lemma SwapInvolution(first: Indices, second: Indices)
    ensures var (a, b) := Swap(first, second); Swap(a, b) == (first, second)
  {
  }

  /** The move constructor: default-construct, then swap with the source.
      Returns the new value and what is left in the source. */
  function Move(other: Indices): (r: (Indices, Indices))
    ensures r.0 == Copy(other)
    ensures r.1 == Default.(computeFamilyRequired := other.computeFamilyRequired, computeFamily := other.computeFamily)
  {
    Swap(Default, other)
  }

  /** Copy assignment `*this = QueueFamilyIndices(other)` moves a copy in,
      which is a swap: the target keeps its own compute pair. */
  function CopyAssign(target: Indices, other: Indices): (r: Indices)
    ensures r.computeFamilyRequired == target.computeFamilyRequired && r.computeFamily == target.computeFamily
    ensures r.(computeFamilyRequired := other.computeFamilyRequired, computeFamily := other.computeFamily) == other
  {
    Swap(target, Copy(other)).0
  }

  /** Move assignment is a swap: the target takes the source's transfer,
      graphics and present pairs and hands its own back; compute stays put. */
  function MoveAssign(target: Indices, other: Indices): (r: (Indices, Indices))
    ensures r.0.computeFamilyRequired == target.computeFamilyRequired && r.0.computeFamily == target.computeFamily
    ensures r.1.computeFamilyRequired == other.computeFamilyRequired && r.1.computeFamily == other.computeFamily
    ensures SamePairs(r.0, other) && SamePairs(r.1, target)
    ensures IsComplete(r.0) <==> IsComplete(other)
    ensures IsComplete(r.1) <==> IsComplete(target)
  {
    Swap(target, other)
  }

  /** Copying, moving and assigning all preserve completeness. */
  lemma CopyPreservesCompleteness(target: Indices, other: Indices)
    ensures IsComplete(Copy(other)) <==> IsComplete(other)
    ensures IsComplete(Move(other).0) <==> IsComplete(other)
    ensures IsComplete(CopyAssign(target, other)) <==> IsComplete(other)
  {
  }
}
