/**
 The speed calculator as the plans page wires it: the shipped plan
 catalog, the estimate fed into the recommender, and the guard that shows
 a recommendation only for a positive required speed.
 */
module Calculator {
  import opened Wrappers
  import opened Activities
  import opened Plans

  /** The plan catalog the plans page passes to the calculator. */
  const Catalog: seq<Plan> := [
    Plan("Universitário", 500, "110,00",
         ["Conexão Fibra Óptica", "Tráfego Ilimitado", "500 Mega Download", "Suporte de Seg. a Sábado",
          "Com Fidelidade 12 meses", "Roteador em comodato", "Wi-fi 5", "Mundial TV***"], false),
    Plan("Básico", 750, "130,00",
         ["Conexão Fibra Óptica", "Tráfego Ilimitado", "750 Mega Download", "Suporte de Seg. a Sábado",
          "Com Fidelidade", "Roteador comodato", "Wi-fi 6", "Mundial TV***"], true),
    Plan("Família", 900, "160,00",
         ["Conexão Fibra Óptica", "Tráfego Ilimitado", "900 Mega Download", "Suporte de Seg. a Sábado",
          "Com Fidelidade", "Roteador comodato", "Wi-fi 6", "Mundial TV***"], false),
    Plan("Casa Conectada", 1000, "200,00",
         ["Conexão Fibra Óptica", "Tráfego Ilimitado", "1000 Mega Download", "Suporte de Seg. a Sábado",
          "Com Fidelidade", "Roteador comodato", "Wi-fi 6", "Mundial TV Incluso"], false)
  ]

  /** The number shown over the gauge: the estimate when positive, else the placeholder 70. */
  function Gauge(required: int): (g: int)
    ensures g > 0
    ensures required > 0 ==> g == required
    ensures required <= 0 ==> g == 70
  {
    if required > 0 then required else 70
  }

  /**
   What the recommendation panel renders: the "select your activities"
   placeholder, a recommended plan, or, for a positive estimate with an
   empty catalog, the error thrown by reading a field of `undefined`.
   */
  datatype PanelView = Placeholder | Recommended(plan: Plan) | NoPlanError

  /**
   The recommendation panel: the recommended plan when the estimate is
   positive, the placeholder otherwise, or the render error when the
   estimate is positive and the catalog is empty.
   */
  function Panel(table: seq<Activity>, plans: seq<Plan>, selected: seq<string>, devices: int): (r: PanelView)
    ensures r.Placeholder? <==> RequiredSpeed(table, selected, devices) <= 0
    ensures r.NoPlanError? <==> RequiredSpeed(table, selected, devices) > 0 && |plans| == 0
    ensures r.Recommended? ==> r.plan in plans
    ensures r.Recommended? ==> Some(r.plan) == Recommend(RequiredSpeed(table, selected, devices), plans)
  {
    var required := RequiredSpeed(table, selected, devices);
    if required <= 0 then Placeholder
    else match Recommend(required, plans)
      case Some(p) => Recommended(p)
      case None => NoPlanError
  }

  /**
   With positive table weights and a valid device count, the panel stays a
   placeholder exactly when nothing is selected, or when only one device is
   counted and no selected id is in the table.
   */
  lemma PanelPlaceholderIff(table: seq<Activity>, plans: seq<Plan>, selected: seq<string>, devices: int)
    requires PositiveWeights(table)
    requires devices >= MinDevices
    ensures Panel(table, plans, selected, devices).Placeholder? <==>
              |selected| == 0
              || (devices == MinDevices && forall i :: 0 <= i < |selected| ==> Find(table, selected[i]).None?)
  {
    BaseSpeedZeroIff(table, selected);
  }

  /** The selection after a series of checkbox clicks, applied in order. */
  function Clicks(selected: seq<string>, ids: seq<string>): seq<string>
    decreases |ids|
  {
    if |ids| == 0 then selected else Clicks(Toggle(selected, ids[0]), ids[1..])
  }

  /** Clicking only the table's checkboxes keeps the selection duplicate-free and made of table ids. */
  lemma {:induction false} ClicksWellFormed(table: seq<Activity>, selected: seq<string>, ids: seq<string>)
    requires NoDup(selected)
    requires forall x :: x in selected ==> Find(table, x).Some?
    requires forall i :: 0 <= i < |ids| ==> Find(table, ids[i]).Some?
    ensures NoDup(Clicks(selected, ids))
    ensures forall x :: x in Clicks(selected, ids) ==> Find(table, x).Some?
    decreases |ids|
  {
    if |ids| > 0 {
      ClicksWellFormed(table, Toggle(selected, ids[0]), ids[1..]);
    }
  }

  /**
   Starting from no selection and clicking only the table's checkboxes, a
   recommendation is shown exactly when at least one box is checked.
   */
  lemma ReachablePanelIff(table: seq<Activity>, plans: seq<Plan>, ids: seq<string>, devices: int)
    requires PositiveWeights(table)
    requires |plans| > 0
    requires devices >= MinDevices
    requires forall i :: 0 <= i < |ids| ==> Find(table, ids[i]).Some?
    ensures Panel(table, plans, Clicks([], ids), devices).Recommended? <==> |Clicks([], ids)| > 0
  {
    var selected := Clicks([], ids);
    ClicksWellFormed(table, [], ids);
    PanelPlaceholderIff(table, plans, selected, devices);
    if |selected| > 0 {
      assert Find(table, selected[0]).Some?;
    }
  }

  /** The shipped catalog is fastest at the cap itself. */
  lemma CatalogTopIsCap()
    ensures forall q :: q in Catalog ==> q.speed <= SpeedCap
    ensures Catalog[3] in Catalog && Catalog[3].speed == SpeedCap
  {
  }

  /**
   With the shipped catalog every recommendation meets the estimate, since
   the estimate never exceeds the 1000 Mbps of the fastest plan.
   */
  lemma CatalogAlwaysMeets(table: seq<Activity>, selected: seq<string>, devices: int)
    ensures !Panel(table, Catalog, selected, devices).NoPlanError?
    ensures Panel(table, Catalog, selected, devices).Recommended? ==>
              Panel(table, Catalog, selected, devices).plan.speed >= RequiredSpeed(table, selected, devices)
  {
    CatalogTopIsCap();
  }

  /** Sorting the shipped catalog leaves it as it is: it is stored ascending. */
  lemma CatalogSorted()
    ensures SortBySpeed(Catalog) == Catalog
  {
    assert Sorted(Catalog);
    SortOfSorted(Catalog);
  }

  /** The weight the shipped table gives each of its ids. */
  lemma TableWeights()
    ensures Weight(Table, "internet") == 100
    ensures Weight(Table, "streaming") == 150
    ensures Weight(Table, "homeoffice") == 200
    ensures Weight(Table, "gaming") == 250
  {
    TableWellFormed();
    FindDistinct(Table, Table[0]);
    FindDistinct(Table, Table[1]);
    FindDistinct(Table, Table[2]);
    FindDistinct(Table, Table[3]);
  }

  /** A one-id selection sums to that id's weight. */
  lemma BaseSpeedOne(table: seq<Activity>, id: string)
    ensures BaseSpeed(table, [id]) == Weight(table, id)
  {
    assert [id][..0] == [];
  }

  /** The sum of all four activities of the shipped table. */
  lemma AllActivitiesSum()
    ensures BaseSpeed(Table, AllIds) == 700
  {
    var a, b, c, d := ["internet"], ["streaming"], ["homeoffice"], ["gaming"];
    assert AllIds == a + b + c + d;
    BaseSpeedAppend(Table, a + b + c, d);
    BaseSpeedAppend(Table, a + b, c);
    BaseSpeedAppend(Table, a, b);
    TableWeights();
    BaseSpeedOne(Table, "internet");
    BaseSpeedOne(Table, "streaming");
    BaseSpeedOne(Table, "homeoffice");
    BaseSpeedOne(Table, "gaming");
  }

  /** Every id of the shipped table, in table order. */
  const AllIds: seq<string> := ["internet", "streaming", "homeoffice", "gaming"]

  /** The recommendation of the shipped catalog for a requirement in (lo, hi]. */
  lemma CatalogPick(required: int, k: int)
    requires 0 <= k < |Catalog|
    requires required <= Catalog[k].speed
    requires k == 0 || Catalog[k - 1].speed < required
    ensures Recommend(required, Catalog) == Some(Catalog[k])
  {
    var c := Catalog;
    assert c[k] in c;
    assert SomeQualifies(required, c);
    assert forall q :: q in c && q.speed >= required ==> c[k].speed <= q.speed by {
      forall q | q in c && q.speed >= required
        ensures c[k].speed <= q.speed
      {
        var i :| 0 <= i < |c| && c[i] == q;
        assert k <= i;
      }
    }
    assert IsCheapestQualifying(required, c, c[k]);
    RecommendIff(required, c, c[k]);
  }

  /** Only "internet" on one device: 100 Mbps, recommending the 500 Mbps plan. */
  lemma ScenarioInternetOnly()
    ensures RequiredSpeed(Table, ["internet"], MinDevices) == 100
    ensures Panel(Table, Catalog, ["internet"], MinDevices) == Recommended(Catalog[0])
  {
    TableWeights();
    BaseSpeedOne(Table, "internet");
    CatalogPick(100, 0);
  }

  /** All four activities on one device: 700 Mbps, recommending the 750 Mbps plan. */
  lemma ScenarioAllActivitiesOneDevice()
    ensures RequiredSpeed(Table, AllIds, MinDevices) == 700
    ensures Panel(Table, Catalog, AllIds, MinDevices) == Recommended(Catalog[1])
  {
    AllActivitiesSum();
    CatalogPick(700, 1);
  }

  /** Gaming on twenty devices: 250 + 19 * 25 = 725 Mbps, recommending the 750 Mbps plan. */
  lemma ScenarioGamingTwentyDevices()
    ensures RequiredSpeed(Table, ["gaming"], MaxDevices) == 725
    ensures Panel(Table, Catalog, ["gaming"], MaxDevices) == Recommended(Catalog[1])
  {
    TableWeights();
    BaseSpeedOne(Table, "gaming");
    CatalogPick(725, 1);
  }

  /** All four activities on twenty devices: 1175 capped to 1000 Mbps, recommending the 1000 Mbps plan. */
  lemma ScenarioCapped()
    ensures RequiredSpeed(Table, AllIds, MaxDevices) == 1000
    ensures Panel(Table, Catalog, AllIds, MaxDevices) == Recommended(Catalog[3])
  {
    AllActivitiesSum();
    CatalogPick(1000, 3);
  }

  /** Nothing selected: no recommendation, whatever the device count. */
  lemma ScenarioNothingSelected(devices: int)
    ensures Panel(Table, Catalog, [], devices).Placeholder?
    ensures Gauge(RequiredSpeed(Table, [], devices)) == 70
  {
  }
}
