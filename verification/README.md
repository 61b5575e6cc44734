# Mundial Net Fibra: speed calculator and city selection, in Dafny

This project models the two pieces of logic in the Mundial Net Fibra marketing site:

- **The speed calculator on the plans page** (`SpeedCalculator` in `src/pages/Planos.tsx`).
  The user ticks activities and sets a device count. The page estimates the bandwidth they need.
  It then recommends the first plan of the speed-sorted catalog that is fast enough, or the fastest plan if none is.
- **The top bar's city selection and first-access flow** (`Topbar` in `src/components/Topbar.tsx`).
  On mount, the top bar reads the chosen city and the first-access mark from local storage.
  A stored city is accepted only if it is one of the listed cities.
  The "welcome" modal is raised when the mark is missing or empty.
  Three handlers change the state and the storage.

Files:

- `wrappers.dfy`: `Option`.
- `activities.dfy` (module `Activities`): the activity table, the checkbox toggle, the per-id lookup, the left-fold sum and the capped estimate, with a reference sum over the table.
- `plans.dfy` (module `Plans`): the `Plan` record, a stable insertion sort by speed, the scan, the recommender, and a reference definition `IsRecommendation` with an if-and-only-if lemma.
- `calculator.dfy` (module `Calculator`): the shipped plan catalog, the gauge number, the `requiredSpeed > 0` display guard, reachable selections, and the worked scenarios.
- `topbar.dfy` (module `Topbar`): local storage as a `map<string, string>`, the component state, the mount effect, the handlers, event runs and their invariants.

How the code behaves:

- The selection is an ordered JavaScript array. Toggling appends at the end or filters out every occurrence. The sum folds over the array, so a duplicated id would count twice. Toggling keeps the array duplicate-free (`Toggle`), and for duplicate-free selections the sum equals a sum over the table (`BaseSpeedIsTableSum`).
- The recommender chooses by speed; prices are never compared. Among equally fast qualifying plans it returns the earliest in the catalog. In the fallback it returns the *last* catalog entry among the fastest plans, because the stable sort puts that entry at the end.
- `getRecommendedPlan` does not reject an empty plan catalog: `sortedPlans[-1]` is `undefined`, which the model writes as `None`. With a positive estimate the page then reads `recommendedPlan.name` and throws; the panel model writes that outcome as `NoPlanError`, apart from the placeholder. The plans page always passes its four-plan catalog, so the error is not reachable there (`CatalogAlwaysMeets`).
- The device count is never validated by the estimator. It is an `int` here, and the bounds that need a valid count (result `>= 0`, monotonicity in the selection) require `devices >= 1`, the slider's minimum.

## Model

| member | source | states |
|---|---|---|
| `Activities.Toggle` | src/pages/Planos.tsx:53-59 | toggling flips the id's membership and leaves every other id's membership alone; an absent id is appended at the end; a duplicate-free selection stays duplicate-free |
| `Activities.ToggleRemovesInPlace` | src/pages/Planos.tsx:53-59 | on a duplicate-free selection, unchecking cuts out the id's one position and keeps the others in order |
| `Activities.ToggleTwiceAbsent` | src/pages/Planos.tsx:53-59 | checking then unchecking an absent id restores the original list |
| `Activities.ToggleTwicePresent` | src/pages/Planos.tsx:53-59 | unchecking then re-checking a present id moves it to the end |
| `Activities.Remove` | src/pages/Planos.tsx:56 | filtering keeps exactly the ids other than the given one and never lengthens the list |
| `Activities.Weight` | src/pages/Planos.tsx:66-67 | an id no row carries weighs 0; otherwise it weighs what the first row carrying it says |
| `Activities.BaseSpeed` | src/pages/Planos.tsx:65-68 | the left fold of the selected ids' weights; it has no contract of its own and is characterised by `BaseSpeedAppend`, `BaseSpeedIsTableSum` and `BaseSpeedZeroIff` |
| `Activities.Find` | src/pages/Planos.tsx:66 | the lookup returns the first table row carrying the id, and returns nothing exactly when no row carries it |
| `Activities.FindDistinct` | src/pages/Planos.tsx:34-66 | in a table with distinct ids, the lookup of a row's id returns exactly that row |
| `Activities.RequiredSpeed` | src/pages/Planos.tsx:61-77 | 0 for an empty selection at any device count; never above 1000; never negative for a device count of at least 1; equals the cap when the sum reaches it and the uncapped sum otherwise |
| `Activities.BaseSpeedAppend` | src/pages/Planos.tsx:65-68 | the fold over a concatenation is the sum of the folds over its parts |
| `Activities.UnknownIdIgnored` | src/pages/Planos.tsx:65-68 | an id missing from the table adds 0 and leaves a non-empty estimate unchanged |
| `Activities.MonotoneInDevices` | src/pages/Planos.tsx:70-74 | more devices never lower the estimate |
| `Activities.MonotoneInAppend` | src/pages/Planos.tsx:62-74 | adding any id never lowers the estimate, for a device count of at least 1 |
| `Activities.ToggleMonotone` | src/pages/Planos.tsx:53-74 | checking a box never lowers the estimate, and unchecking one never raises it |
| `Activities.BaseSpeedIsTableSum` | src/pages/Planos.tsx:65-68 | for a duplicate-free selection and distinct table ids, the fold equals the sum of the selected rows' weights, so selection order does not matter |
| `Activities.SupersetMonotone` | src/pages/Planos.tsx:61-74 | a selection containing every id of another never gets a lower sum or estimate |
| `Activities.BaseSpeedZeroIff` | src/pages/Planos.tsx:65-68 | with positive weights, the sum is 0 exactly when no selected id is in the table |
| `Activities.TableWellFormed` | src/pages/Planos.tsx:34-51 | the shipped activity table has four rows, distinct ids and positive weights |
| `Plans.Insert` | src/pages/Planos.tsx:81-83 | insertion adds exactly one copy of the plan to the multiset |
| `Plans.InsertSorted` | src/pages/Planos.tsx:81-83 | insertion into a speed-sorted list keeps it sorted |
| `Plans.SortBySpeed` | src/pages/Planos.tsx:81-83 | the sorted copy is a permutation of the catalog and is ascending by speed |
| `Plans.SortSameElements` | src/pages/Planos.tsx:81-83 | the sorted copy has the catalog's length and exactly its plans |
| `Plans.InsertStable` | src/pages/Planos.tsx:81-83 | an inserted plan comes first among plans of its speed, and other speeds are untouched |
| `Plans.SortStable` | src/pages/Planos.tsx:81-83 | stability: for every speed, the sorted copy lists that speed's plans in catalog order |
| `Plans.FirstAtLeast` | src/pages/Planos.tsx:85-89 | the scan finds nothing exactly when every plan is too slow; otherwise it returns a fast-enough plan with only too-slow plans before it |
| `Plans.ScanMinimal` | src/pages/Planos.tsx:81-89 | on the sorted copy, the plan the scan finds is no faster than any other fast-enough plan |
| `Plans.LastIsFastest` | src/pages/Planos.tsx:81-90 | the last plan of the sorted copy is at least as fast as every plan |
| `Plans.SortOfSorted` | src/pages/Planos.tsx:81-83 | sorting a list that is already ascending by speed leaves it unchanged |
| `Plans.Recommend` | src/pages/Planos.tsx:79-90 | None exactly for an empty catalog; a catalog member; the slowest fast-enough plan when one exists; the fastest plan otherwise |
| `Plans.SoundWhenFound` | src/pages/Planos.tsx:85-89 | when the scan finds a plan, it is the slowest fast-enough plan and the earliest in the catalog at its speed |
| `Plans.SoundWhenNotFound` | src/pages/Planos.tsx:90 | when the scan finds nothing, no plan qualifies and the returned plan is the fastest, and the latest in the catalog at its speed |
| `Plans.RecommendSound` | src/pages/Planos.tsx:79-90 | the recommendation meets the reference definition, tie-breaks included |
| `Plans.RecommendationUnique` | src/pages/Planos.tsx:79-90 | at most one plan meets the reference definition |
| `Plans.RecommendIff` | src/pages/Planos.tsx:79-90 | the recommender returns a plan exactly when that plan meets the reference definition |
| `Plans.RecommendMonotone` | src/pages/Planos.tsx:79-90 | a higher requirement never yields a slower plan |
| `Plans.RecommendFallback` | src/pages/Planos.tsx:90 | a requirement above every speed yields a plan of the catalog's top speed |
| `Calculator.Gauge` | src/pages/Planos.tsx:102-104 | the gauge shows the estimate when it is positive, and exactly 70 otherwise |
| `Calculator.Panel` | src/pages/Planos.tsx:93-207 | the placeholder shows exactly when the estimate is not positive; a positive estimate with an empty catalog is exactly the render error; a shown plan is a catalog member and is the catalog's recommendation |
| `Calculator.PanelPlaceholderIff` | src/pages/Planos.tsx:61-163 | for a valid device count, the placeholder shows exactly when nothing is selected, or when there is one device and no selected id is in the table |
| `Calculator.ClicksWellFormed` | src/pages/Planos.tsx:110-121 | clicking only the table's checkboxes keeps the selection duplicate-free and made of table ids |
| `Calculator.ReachablePanelIff` | src/pages/Planos.tsx:110-163 | from an empty selection, after any clicks on the table's checkboxes, a plan is shown exactly when a box is checked |
| `Calculator.CatalogTopIsCap` | src/pages/Planos.tsx:214-276 | the shipped catalog's fastest plan runs at exactly the 1000 Mbps cap |
| `Calculator.CatalogAlwaysMeets` | src/pages/Planos.tsx:73-90 | with the shipped catalog the render error never happens, and a shown plan always meets the estimate |
| `Calculator.CatalogSorted` | src/pages/Planos.tsx:214-276 | the shipped catalog is already ascending, so sorting leaves it unchanged |
| `Calculator.TableWeights` | src/pages/Planos.tsx:34-51 | the shipped ids weigh 100, 150, 200 and 250 Mbps |
| `Calculator.AllActivitiesSum` | src/pages/Planos.tsx:34-68 | the four activities together sum to 700 Mbps |
| `Calculator.CatalogPick` | src/pages/Planos.tsx:79-90 | a requirement above one shipped tier and at most the next one recommends that next tier |
| `Calculator.ScenarioInternetOnly` | src/pages/Planos.tsx:61-90 | browsing alone on one device needs 100 Mbps and gets the 500 Mbps plan |
| `Calculator.ScenarioAllActivitiesOneDevice` | src/pages/Planos.tsx:61-90 | all four activities on one device need 700 Mbps and get the 750 Mbps plan |
| `Calculator.ScenarioGamingTwentyDevices` | src/pages/Planos.tsx:61-90 | gaming on twenty devices needs 725 Mbps and gets the 750 Mbps plan |
| `Calculator.ScenarioCapped` | src/pages/Planos.tsx:61-90 | all activities on twenty devices are capped at 1000 Mbps and get the 1000 Mbps plan |
| `Calculator.ScenarioNothingSelected` | src/pages/Planos.tsx:62-104 | an empty selection shows no plan and the placeholder gauge, at any device count |
| `Topbar.Truthy` | src/components/Topbar.tsx:37-42 | JavaScript truthiness of a stored value: neither missing nor empty; it has no contract of its own and is used by `Mount` and `FirstAccessShownIff` |
| `Topbar.Mount` | src/components/Topbar.tsx:34-48 | mounting raises the modal exactly when the first-access key is falsy; it adopts a stored city that is truthy and listed, leaving storage as it was; otherwise it selects the default city and writes it back; no other key changes |
| `Topbar.SelectCity` | src/components/Topbar.tsx:50-54 | selecting adopts and stores the city and closes the dialog; the first-access flags and every other key are unchanged |
| `Topbar.FirstAccessClose` | src/components/Topbar.tsx:56-59 | closing clears `showFirstAccess` and stores "true" under the first-access key; the city, the dialog and every other key are unchanged |
| `Topbar.FirstAccessClient` | src/components/Topbar.tsx:61-65 | the client choice does exactly what closing does, and also opens the city dialog |
| `Topbar.SetDialogOpen` | src/components/Topbar.tsx:80 | the dialog's open request changes only `isOpen` |
| `Topbar.MountInv` | src/components/Topbar.tsx:34-48 | after mounting, the selected city is listed, storage holds it, and the check is done |
| `Topbar.StepInv` | src/components/Topbar.tsx:50-111 | every handler the page offers preserves that invariant |
| `Topbar.RunInv` | src/components/Topbar.tsx:50-111 | any sequence of offered events preserves the invariant |
| `Topbar.SelectedCityAlwaysListed` | src/components/Topbar.tsx:28-111 | after mounting and any offered events, the selected city is one of the listed cities |
| `Topbar.MountIdempotent` | src/components/Topbar.tsx:41-46 | mounting again from what mounting wrote yields the same state and writes nothing |
| `Topbar.CityPersists` | src/components/Topbar.tsx:41-54 | a reload after any offered events selects the city the user last had |
| `Topbar.FirstAccessDoneSticks` | src/components/Topbar.tsx:50-65 | once the first-access key is truthy, no event makes it falsy |
| `Topbar.NoFirstAccessAfterAnswer` | src/components/Topbar.tsx:36-63 | once the modal has been answered, mounting again from storage never raises it |
| `Topbar.FirstAccessShownIff` | src/components/Topbar.tsx:36-70 | at first mount the modal is visible exactly when storage has no truthy first-access mark |

## Left out

- Rendering, Tailwind classes and framer-motion animation: presentation only.
- `parseInt` on plan speeds: every catalog speed is a plain decimal literal, so `speed` is a `nat`.
- `Math.round` on the estimate: the sum of integers is already an integer, so it is the identity.
- Prices and feature lists: display text with no arithmetic. They are carried in `Plan` and never read.
- The comparison table and FAQ of the plans page, and the copy of the plan list on the home page: static data with no behaviour.
- The slider's range: the estimator takes any integer device count. The range `MinDevices`..`MaxDevices` (1..20) is enforced by the range input, which is not modelled.
- Real local-storage I/O: replaced by a map passed in and returned. Storage errors (quota, disabled storage) are not modelled.
- The contact and signup forms, the coverage page, the footer, the WhatsApp button, scroll restoration, routing, the navigation bar and the first-access modal's view: they are simulated async side effects, browser calls, or static lookups with no logic to prove.
- React's rendering schedule: the mount effect is one function applied to the initial state, and each handler is one state transition.
