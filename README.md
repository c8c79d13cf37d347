# PCON forwarding strategy: a Dafny model

PCONStrategy is an NFD forwarding strategy for ndnSIM. For each name prefix
it keeps a distribution of forwarding shares over the prefix's nexthop faces.
The distribution is keyed by the prefix's first name component.

- On the first Interest for a prefix, the strategy initialises the
  distribution: the first nexthop of lowest cost gets share 1.0 and every
  other nexthop gets 0.0.
- Each Interest is then forwarded:
  - from a local face, to the first eligible nexthop;
  - from a non-local face, to a face drawn at random by the shares of the
    eligible faces.
- When a Data packet arrives with a congestion mark on a face whose id is
  above 256, that face loses part of its share (`CHANGE_PER_MARK` = 0.1 of
  it). The amount removed is spread equally over the other faces.

The model is split into these modules:

- `Shares`: face ids, share maps and their (ghost) total.
- `ForwardingInfo`: `MtForwardingInfo`, a class holding the prefix and the
  face-to-share map.
- `Initialisation`: `initializeForwMap` as functions and lemmas.
- `Redistribution`: `reduceFwPerc` and the congestion-feedback guard as
  functions on share maps, with their mass and range properties.
- `Selection`: the forwarding decision of `afterReceiveInterest`, with its
  loops as methods.
- `Strategy`: class `PconStrategy`. Its field `innerMap` maps keys to
  records. Its methods are `afterReceiveInterest`, `beforeSatisfyInterest`,
  `initializeForwMap`, `reduceFwPerc` and the map accessors.

Inputs the strategy gets from outside are parameters of the model:

- the retransmission-suppression verdict;
- the ingress face's scope;
- the eligibility test of each nexthop face;
- the random draw `r`, in [0, 1];
- the congestion mark.

Shares are exact reals. The outward-facing results are values of the
`Outcome` datatype:

- `Forward(face)`: send the Interest;
- `Nack(NoRoute)`: send a NO_ROUTE NACK;
- `Suppressed` and `Dropped`: the two silent returns, after a suppressed
  retransmission and after a non-local Interest with no eligible face.

The model follows the code in these behaviours:

- the distribution is created before the suppression verdict is looked at;
- a non-local Interest with no eligible face returns without a NACK;
- a local Interest with no eligible face gets a NACK;
- when the weighted walk picks no face, a NACK is sent and there is no
  fallback to the last eligible face;
- only the sign of the congestion mark matters;
- a face counts as non-local for feedback exactly when its id is above 256.

## Model

| member | source | states |
|---|---|---|
| Strategy.Key | scenario/extensions/PCONStrategy.hpp:51 | the map key is the name cut to at most its first component, which is a prefix of the name |
| Strategy.PconStrategy.GetPrefixMeasurements | scenario/extensions/PCONStrategy.hpp:48-60 | returns null exactly when the prefix's key is absent, otherwise the record stored under that key |
| Strategy.PconStrategy.AddPrefixMeasurements | scenario/extensions/PCONStrategy.hpp:62-70 | the key is present afterwards; an existing record is returned and the map is unchanged; otherwise the map gains one fresh, empty record |
| Strategy.AddPrefixMeasurementsTwice | scenario/extensions/PCONStrategy.hpp:62-70 | calling addPrefixMeasurements twice returns the same record, and the map changes at most once |
| Strategy.PconStrategy.FindPrefixMeasurementsLPM | scenario/extensions/PCONStrategy.hpp:77-86 | returns (empty name, null) exactly when the PIT name's first-component key is absent, otherwise that one-component prefix and its record |
| Strategy.PconStrategy.InitializeForwMap | scenario/extensions/PCONStrategy.cpp:146-171 | the record's map becomes its old contents overwritten with InitialShares of the nexthops, and the prefix is unchanged |
| Strategy.PconStrategy.ReduceFwPerc | scenario/extensions/PCONStrategy.hpp:96-138 | the record's shares become Reduced(old shares, face, change), whatever order the loop visits the faces in |
| Strategy.PconStrategy.LookupOrInitialise | scenario/extensions/PCONStrategy.cpp:34-44 | the key for the FIB prefix is present afterwards; existing records and their shares are untouched; a new record is fresh, carries the FIB prefix and holds InitialShares of the nexthops |
| Strategy.PconStrategy.AfterReceiveInterest | scenario/extensions/PCONStrategy.cpp:30-120 | the outcome is InterestDecision on the shares stored for the key after lookup-or-initialise, whatever the suppression verdict; no other record changes |
| Strategy.PconStrategy.BeforeSatisfyInterest | scenario/extensions/PCONStrategy.cpp:122-138 | the key set is unchanged; the record found for the PIT name gets Feedback(old shares, face, mark); every other record keeps its shares; every record keeps its prefix |
| Strategy.PconStrategy.BeforeSatisfyInterestGuarded | scenario/extensions/PCONStrategy.cpp:122-138 | the same effect as BeforeSatisfyInterest, prefixes kept, without requiring the record to exist; a missing record means nothing changes |
| Strategy.RootRouteLeavesDataPathWithoutRecord | scenario/extensions/PCONStrategy.cpp:34-44 | under the FIB prefix "/", an Interest leaves a record under the empty key only, so the Data path for /a/b finds none |
| Initialisation.MinScan | scenario/extensions/PCONStrategy.cpp:150-160 | minCost ends at most INT_MAX and at most every nexthop's cost; while it is INT_MAX, lowestId is INT_MAX too |
| Initialisation.InitialShares | scenario/extensions/PCONStrategy.cpp:146-171 | the entries written are keyed by exactly the nexthop faces, and each is 0.0 or 1.0 |
| Initialisation.MinScanFindsFirstMin | scenario/extensions/PCONStrategy.cpp:150-160 | the first loop ends with minCost at most every cost; it finds the first nexthop of lowest cost when some cost is below INT_MAX, and otherwise lowestId stays INT_MAX |
| Initialisation.InitialSharesFaces | scenario/extensions/PCONStrategy.cpp:162-170 | entries are written for exactly the nexthop faces; an entry is 1.0 exactly when its face is lowestId, and 0.0 otherwise |
| Initialisation.InitialSharesSingleWinner | scenario/extensions/PCONStrategy.cpp:150-170 | when a cost is below INT_MAX, the first lowest-cost nexthop's face gets 1.0, every other face gets 0.0, and the shares form a distribution summing to 1 |
| Initialisation.AssignedOverStep | scenario/extensions/PCONStrategy.cpp:162-170 | one step of the second loop writes the entry of one more nexthop over what was written before |
| Selection.FirstEligible | scenario/extensions/PCONStrategy.cpp:54-63 | returns None exactly when no nexthop is eligible; otherwise the face of an eligible nexthop with no eligible nexthop before it |
| Selection.EligibleFaces | scenario/extensions/PCONStrategy.cpp:72-81 | eligbleFaces has at most one entry per nexthop |
| Selection.EligibleFacesMembers | scenario/extensions/PCONStrategy.cpp:71-81 | a face is in eligbleFaces exactly when it is a nexthop face and eligible; the list is empty exactly when find_if finds nothing, and otherwise it starts with find_if's face |
| Selection.EligibleFacesAppend | scenario/extensions/PCONStrategy.cpp:73-81 | the eligible faces of two lists joined are those of each list, in order |
| Selection.CollectEligible | scenario/extensions/PCONStrategy.cpp:69-81 | the loop yields eligbleFaces and percSum, the sum of their shares |
| Selection.WalkFrom | scenario/extensions/PCONStrategy.cpp:95-103 | the walk picks nothing exactly when no cumulative share reaches past r; otherwise it picks the first face where that happens |
| Selection.WalkChoice | scenario/extensions/PCONStrategy.cpp:93-103 | a zero percSum picks nothing; a choice is always one of the faces; otherwise the choice is the first face whose cumulative share exceeds r |
| Selection.WeightedWalk | scenario/extensions/PCONStrategy.cpp:94-103 | the loop with its early break picks exactly WalkChoice |
| Selection.CumIsShareOfPrefix | scenario/extensions/PCONStrategy.cpp:97 | forwPerc after k faces equals the total share of the first k faces divided by percSum |
| Selection.WalkChoosesBelowOne | scenario/extensions/PCONStrategy.cpp:67-103 | with a non-zero percSum and r below 1, the walk always picks a face |
| Selection.ShareSumNonNegative | scenario/extensions/PCONStrategy.cpp:69-78 | percSum is not negative when none of the eligible faces has a negative share |
| Selection.ShareSumPrefixAtMost | scenario/extensions/PCONStrategy.cpp:78 | with non-negative shares, the total of a prefix of the faces is at most the total of all of them |
| Selection.WalkPicksNothingAtOne | scenario/extensions/PCONStrategy.cpp:67-103 | with non-negative shares, a positive percSum and r of at least 1, the walk picks no face |
| Selection.InterestDecision | scenario/extensions/PCONStrategy.cpp:46-118 | the Interest is suppressed exactly when the verdict is SUPPRESS, and only a non-local Interest ends in the silent return without a NACK |
| Selection.InterestDecisionOutcomes | scenario/extensions/PCONStrategy.cpp:46-118 | an Interest goes only to an eligible nexthop face; it ends silently exactly when it is not suppressed, arrived on a non-local face and no nexthop is eligible |
| Selection.LocalIngressTakesFirstEligible | scenario/extensions/PCONStrategy.cpp:54-63 | a local Interest goes to the first eligible nexthop, whatever the shares and the draw |
| Selection.LocalIngressWithoutEligibleNacks | scenario/extensions/PCONStrategy.cpp:107-113 | a local Interest with no eligible nexthop gets a NO_ROUTE NACK |
| Selection.RemoteIngressForwards | scenario/extensions/PCONStrategy.cpp:83-113 | a single eligible face is used whatever its share; several go through the walk; a NACK needs several eligible faces, and a zero percSum or r = 1 |
| Selection.ZeroShareSumSendsNack | scenario/extensions/PCONStrategy.cpp:95-113 | when the ingress holds the whole share, two eligible faces with share 0 still get a NACK |
| Selection.DrawOfOneSendsNack | scenario/extensions/PCONStrategy.cpp:95-113 | with shares 0.5 and 0.5, a draw of exactly 1 gets a NACK |
| Selection.WalkWithFallback | scenario/extensions/PCONStrategy.cpp:93-113 | always picks one of the faces when there is any; the walk's own choice is kept, and otherwise the last face is taken |
| Selection.InterestDecisionWithFallback | scenario/extensions/PCONStrategy.cpp:83-117 | agrees with the decision as written wherever that forwards; a non-local, unsuppressed Interest with an eligible face is always forwarded to an eligible face |
| Redistribution.Min | scenario/extensions/PCONStrategy.hpp:107 | std::min: the result is one of the arguments and at most both |
| Redistribution.Abs | scenario/extensions/PCONStrategy.hpp:127 | std::abs: the result is non-negative and is the argument or its negation |
| Redistribution.Reduced | scenario/extensions/PCONStrategy.hpp:96-138 | with exactly one face the shares are unchanged; otherwise the reduced face is held and its share drops by min(change, share) |
| Redistribution.Feedback | scenario/extensions/PCONStrategy.cpp:131-136 | without a mark above 0 on a face above 256 the shares are unchanged; the face set stays the same or gains only the marked face |
| Redistribution.ReducedEffect | scenario/extensions/PCONStrategy.hpp:101-131 | a single face is left unchanged; otherwise the reduced face drops by min(change, share), and each other face gains that amount divided by the face count minus one; a reduced face the map does not hold is inserted with 0.0 and no other share changes |
| Redistribution.SpreadAddsUp | scenario/extensions/PCONStrategy.hpp:127 | the equal parts handed out add up to the amount taken from the reduced face |
| Redistribution.RestSpread | scenario/extensions/PCONStrategy.hpp:111-131 | over the faces other than the reduced one, the gains add up to what the reduced face lost |
| Redistribution.ReducedConservesMass | scenario/extensions/PCONStrategy.hpp:107-131 | with a non-negative change and share, reduceFwPerc keeps the total share unchanged |
| Redistribution.ReducedKeepsDistribution | scenario/extensions/PCONStrategy.hpp:107-131 | a distribution stays a distribution, every share within [0, 1] |
| Redistribution.FeedbackKeepsDistribution | scenario/extensions/PCONStrategy.cpp:131-136 | congestion feedback keeps a distribution a distribution |
| Redistribution.FeedbackGuard | scenario/extensions/PCONStrategy.cpp:131 | shares change only for a mark above 0 on a face above 256, and every positive mark has the same effect |
| Redistribution.FeedbackExample | scenario/extensions/PCONStrategy.cpp:131-136 | face 257 of {0.5, 0.3, 0.2} marked with 3 becomes {0.45, 0.325, 0.225} |
| Shares.SumUpdate | scenario/extensions/PCONStrategy.hpp:111 | overwriting one face's share changes the total by the difference |
| Shares.SumNonNegative | scenario/extensions/PCONStrategy.hpp:112-131 | the total of non-negative shares is non-negative |
| Shares.ShareAtMostSum | scenario/extensions/PCONStrategy.hpp:112-131 | with non-negative shares, each share is at most the total |
| Shares.SingleWinnerIsDistribution | scenario/extensions/PCONStrategy.cpp:162-170 | 1.0 on one face and 0.0 on the rest sums to 1 |
| ForwardingInfo.MtForwardingInfo.GetForwPerc | scenario/extensions/PCONStrategy.cpp:78 | getforwPerc reads the stored share of a face held, and 0.0 for a face not held |
| ForwardingInfo.MtForwardingInfo.GetFaceCount | scenario/extensions/PCONStrategy.hpp:101 | getFaceCount is 0 exactly when no face is held, and at least 1 otherwise |
| ForwardingInfo.MtForwardingInfo.SetForwPerc | scenario/extensions/PCONStrategy.cpp:169 | setforwPerc stores one face's share and changes nothing else |
| ForwardingInfo.MtForwardingInfo.IncreaseForwPerc | scenario/extensions/PCONStrategy.hpp:111 | increaseforwPerc adds to one face's share (from 0.0 when absent) and changes nothing else |
| ForwardingInfo.MtForwardingInfo.SetPrefix | scenario/extensions/PCONStrategy.cpp:42 | setPrefix records the prefix and leaves the shares as they were |

## Left out

- The random draw `rand() / RAND_MAX` is a parameter `r` in [0, 1]. Its distribution and the C library generator are not modelled.
- RetxSuppressionExponential (the timing behind `decidePerPitEntry`) is not modelled; its verdict is an input.
- `isNextHopEligible` is not modelled; it is an input predicate on the nexthop's face. The model does not capture that it may depend on the ingress face, the Interest or the PIT entry.
- `sendInterest`, `sendNack` and `rejectPendingInterest` are not modelled as actions; they are the `Forward` and `Nack` outcomes, and their effects on the PIT and the faces are not modelled.
- `afterReceiveNack` and `processNack` are not modelled; they belong to NFD's ProcessNackTraits.
- The constructor, `getStrategyName`, the FIB and PIT lookups (`lookupFib`) and the retransmission-suppression constants are not modelled; they only wire the strategy into NFD.
- Logging and the `std::cout` lines are not modelled; they are output only.
- The in-loop accumulation of `sumFWPerc` is not modelled; in the source it feeds only a commented-out range check.
- `toUri` is not modelled. The map key is the one-component Name itself, which assumes that distinct names have distinct URIs. The recorded prefix is likewise the Name and not its URI.
- The header of `MtForwardingInfo` (mt-forward-info.hpp) is not part of this model. Its accessors are assumed to behave as stated in the forwarding_info.dfy comments: an absent face reads as 0.0, and increase inserts an absent face.
- IEEE double rounding, NaN and infinities are not modelled; shares are exact reals. For a zero `percSum`, the source divides by zero; the model takes that as choosing nothing, which matches the NaN comparisons as long as shares are non-negative.
- `std::unordered_map` iteration order is not modelled: `ReduceFwPerc` takes the faces in an arbitrary order, and its result does not depend on it.
- Congestion-mark width is not modelled: the mark is an unbounded natural.
- Face ids are unbounded naturals; the `int` of `lowestId` and its comparison with a 64-bit face id are not modelled as bounded integers.
- BeforeSatisfyInterest: dereferencing a missing record is not modelled as undefined behaviour; it is a precondition that the record exists whenever the guard holds (see Findings).

## Findings

| source | as written | input that shows it | evidently intended | confidence | as-written member | corrected member |
|---|---|---|---|---|---|---|
| scenario/extensions/PCONStrategy.cpp:93-113 | when the weighted walk picks no face, the Interest gets a NO_ROUTE NACK although several faces are eligible | nexthops (3, cost 1), (4, cost 2), (5, cost 3) with face 3 ineligible (it is the ingress): the shares are {3: 1.0, 4: 0.0, 5: 0.0}, percSum is 0, and the walk picks nothing. Separately, shares {4: 0.5, 5: 0.5} with r = 1 (rand() returning RAND_MAX) also pick nothing | an eligible face is always used, falling back to the last eligible face | not executed | Selection.ZeroShareSumSendsNack | Selection.InterestDecisionWithFallback |
| scenario/extensions/PCONStrategy.cpp:126-136 | the record found for the PIT name is dereferenced without a null check | FIB prefix "/" (a default route): the Interest for /a/b stores its record under the empty key, and the congestion-marked Data for /a/b from face 300 looks up "/a" and finds null | no record means nothing to adjust | not executed | Strategy.RootRouteLeavesDataPathWithoutRecord | Strategy.PconStrategy.BeforeSatisfyInterestGuarded |

The first finding's r = 1 case is shown by Selection.DrawOfOneSendsNack.
`AfterReceiveInterest` keeps the NACK behaviour as written. The corrected
decision, Selection.InterestDecisionWithFallback, walks with
Selection.WalkWithFallback and is proved to forward every non-local Interest
that has an eligible face.
