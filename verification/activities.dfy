/**
 The activity half of the plans page's speed calculator: the table of
 activities, the checkbox toggle over the list of selected ids, and the
 estimate of the bandwidth a selection needs.
 */
module Activities {
  import opened Wrappers

  /** One row of the activity table: the checkbox id, its label and the Mbps it adds to the sum. */
  datatype Activity = Activity(id: string, caption: string, mbpsPerDevice: nat)

  /** Mbps added for every device beyond the first. */
  const PerExtraDevice: nat := 25

  /** Upper bound of every estimate, in Mbps. */
  const SpeedCap: nat := 1000

  /** Range of the device-count slider. */
  const MinDevices: nat := 1
  const MaxDevices: nat := 20

  /** The activity table shown by the calculator. */
  const Table: seq<Activity> := [
    Activity("internet", "Navegar na internet e redes sociais", 100),
    Activity("streaming", "Ver filmes, séries outros conteúdos", 150),
    Activity("homeoffice", "Trabalho Home Office e Aulas online", 200),
    Activity("gaming", "Jogos Online", 250)
  ]

  /** No id occurs twice in a list of selected ids. */
  predicate NoDup(s: seq<string>) {
    forall i, j :: 0 <= i < j < |s| ==> s[i] != s[j]
  }

  /** No id labels two rows of an activity table. */
  predicate DistinctIds(table: seq<Activity>) {
    forall i, j :: 0 <= i < j < |table| ==> table[i].id != table[j].id
  }

  /** Every row of the table adds a positive bandwidth. */
  predicate PositiveWeights(table: seq<Activity>) {
    forall i :: 0 <= i < |table| ==> table[i].mbpsPerDevice > 0
  }

  // ---------------------------------------------------------------------------
  // Toggling a checkbox
  // ---------------------------------------------------------------------------

  /** The list without any occurrence of `id`, the others in their order. */
  function Remove(s: seq<string>, id: string): (r: seq<string>)
    ensures forall x :: x in r <==> x in s && x != id
    ensures |r| <= |s|
  {
    if |s| == 0 then []
    else (if s[0] == id then [] else [s[0]]) + Remove(s[1..], id)
  }

  /** A checkbox change: a selected id is filtered out, an unselected one is appended. */
  function Toggle(selected: seq<string>, id: string): (r: seq<string>)
    ensures id in r <==> id !in selected
    ensures forall x :: x != id ==> (x in r <==> x in selected)
    ensures id !in selected ==> r == selected + [id]
    ensures NoDup(selected) ==> NoDup(r)
  {
    if id in selected then
      RemoveNoDup(selected, id);
      Remove(selected, id)
    else
      selected + [id]
  }

  /** Filtering keeps a list duplicate-free. */
  lemma {:induction false} RemoveNoDup(s: seq<string>, id: string)
    ensures NoDup(s) ==> NoDup(Remove(s, id))
  {
    if |s| > 0 {
      RemoveNoDup(s[1..], id);
      if NoDup(s) {
        assert NoDup(s[1..]);
        assert s[0] !in s[1..];
      }
    }
  }

  /** Removing an id that does not occur leaves the list as it was. */
  lemma {:induction false} RemoveAbsent(s: seq<string>, id: string)
    requires id !in s
    ensures Remove(s, id) == s
  {
    if |s| > 0 {
      RemoveAbsent(s[1..], id);
      assert s == [s[0]] + s[1..];
    }
  }

  /** Removing from a concatenation removes from each part. */
  lemma {:induction false} RemoveAppend(s: seq<string>, t: seq<string>, id: string)
    ensures Remove(s + t, id) == Remove(s, id) + Remove(t, id)
  {
    if |s| == 0 {
      assert s + t == t;
    } else {
      assert (s + t)[1..] == s[1..] + t;
      RemoveAppend(s[1..], t, id);
    }
  }

  /** On a duplicate-free list, unchecking an id cuts out its one position and keeps the order of the rest. */
  lemma ToggleRemovesInPlace(selected: seq<string>, id: string, i: int)
    requires NoDup(selected)
    requires 0 <= i < |selected| && selected[i] == id
    ensures Toggle(selected, id) == selected[..i] + selected[i + 1..]
  {
    RemoveAt(selected, id, i);
  }

  /** Filtering a duplicate-free list removes exactly the one position holding the id. */
  lemma {:induction false} RemoveAt(s: seq<string>, id: string, i: int)
    requires NoDup(s)
    requires 0 <= i < |s| && s[i] == id
    ensures Remove(s, id) == s[..i] + s[i + 1..]
  {
    if i == 0 {
      assert id !in s[1..];
      RemoveAbsent(s[1..], id);
    } else {
      assert NoDup(s[1..]);
      RemoveAt(s[1..], id, i - 1);
      assert s[1..][..i - 1] == s[1..i];
      assert s[1..][i..] == s[i + 1..];
      assert s[..i] == [s[0]] + s[1..i];
    }
  }

  /** Checking and then unchecking an unselected id restores the selection. */
  lemma ToggleTwiceAbsent(selected: seq<string>, id: string)
    requires id !in selected
    ensures Toggle(Toggle(selected, id), id) == selected
  {
    RemoveAppend(selected, [id], id);
    RemoveAbsent(selected, id);
    assert Remove([id], id) == [] by {
      assert [id][1..] == [];
    }
  }

  /** Unchecking and then re-checking a selected id moves it to the end of the selection. */
  lemma ToggleTwicePresent(selected: seq<string>, id: string)
    requires id in selected
    ensures Toggle(Toggle(selected, id), id) == Remove(selected, id) + [id]
  {
  }

  // ---------------------------------------------------------------------------
  // The speed estimate
  // ---------------------------------------------------------------------------

  /** The first row of the table with this id, as `Array.prototype.find` returns it. */
  function Find(table: seq<Activity>, id: string): (r: Option<Activity>)
    ensures r.Some? ==> r.value in table && r.value.id == id
    ensures r.Some? ==> exists i :: 0 <= i < |table| && table[i] == r.value
                          && forall j :: 0 <= j < i ==> table[j].id != id
    ensures r.None? <==> forall i :: 0 <= i < |table| ==> table[i].id != id
  {
    if |table| == 0 then None
    else if table[0].id == id then Some(table[0])
    else
      var r := Find(table[1..], id);
      assert r.Some? ==> exists i :: 0 <= i < |table| && table[i] == r.value
                          && forall j :: 0 <= j < i ==> table[j].id != id by {
        if r.Some? {
          var i :| 0 <= i < |table[1..]| && table[1..][i] == r.value
                   && forall j :: 0 <= j < i ==> table[1..][j].id != id;
          assert table[i + 1] == r.value;
          forall j | 0 <= j < i + 1
            ensures table[j].id != id
          {
            if j > 0 {
              assert table[j] == table[1..][j - 1];
            }
          }
        }
      }
      r
  }

  /** In a table with distinct ids, the row found is the one row carrying the id. */
  lemma FindDistinct(table: seq<Activity>, a: Activity)
    requires DistinctIds(table)
    ensures Find(table, a.id) == Some(a) <==> a in table
  {
  }

  /** The Mbps one selected id adds: its row's weight, or 0 for an id missing from the table. */
  function Weight(table: seq<Activity>, id: string): (w: nat)
    ensures (forall i :: 0 <= i < |table| ==> table[i].id != id) ==> w == 0
    ensures forall i :: 0 <= i < |table| && table[i].id == id && (forall j :: 0 <= j < i ==> table[j].id != id)
              ==> w == table[i].mbpsPerDevice
  {
    match Find(table, id)
    case Some(a) => a.mbpsPerDevice
    case None => 0
  }

  /** The sum of the weights of the selected ids, folded from the left as `reduce` does. */
  function BaseSpeed(table: seq<Activity>, selected: seq<string>): nat
  {
    if |selected| == 0 then 0
    else BaseSpeed(table, selected[..|selected| - 1]) + Weight(table, selected[|selected| - 1])
  }

  /** Smaller of two integers, as `Math.min`. */
  function Min(a: int, b: int): int
  {
    if a <= b then a else b
  }

  /**
   The bandwidth a selection and a device count need: 0 for an empty
   selection, otherwise the activity sum plus 25 Mbps per extra device,
   capped at 1000 Mbps. The sum is already an integer, so rounding is the identity.
   */
  function RequiredSpeed(table: seq<Activity>, selected: seq<string>, devices: int): (r: int)
    ensures |selected| == 0 ==> r == 0
    ensures r <= SpeedCap
    ensures devices >= MinDevices ==> r >= 0
    ensures |selected| > 0 && BaseSpeed(table, selected) + (devices - 1) * PerExtraDevice >= SpeedCap ==> r == SpeedCap
    ensures |selected| > 0 && BaseSpeed(table, selected) + (devices - 1) * PerExtraDevice <= SpeedCap
            ==> r == BaseSpeed(table, selected) + (devices - 1) * PerExtraDevice
  {
    if |selected| == 0 then 0
    else Min(BaseSpeed(table, selected) + (devices - 1) * PerExtraDevice, SpeedCap)
  }

  /** The activity sum of a concatenation is the sum of the parts' sums. */
  lemma {:induction false} BaseSpeedAppend(table: seq<Activity>, s: seq<string>, t: seq<string>)
    ensures BaseSpeed(table, s + t) == BaseSpeed(table, s) + BaseSpeed(table, t)
  {
    if |t| == 0 {
      assert s + t == s;
    } else {
      var t' := t[..|t| - 1];
      assert (s + t)[..|s + t| - 1] == s + t';
      BaseSpeedAppend(table, s, t');
    }
  }

  /** An id missing from the table adds nothing to the sum and does not change a non-empty estimate. */
  lemma UnknownIdIgnored(table: seq<Activity>, selected: seq<string>, id: string, devices: int)
    requires Find(table, id).None?
    ensures BaseSpeed(table, selected + [id]) == BaseSpeed(table, selected)
    ensures |selected| > 0 ==> RequiredSpeed(table, selected + [id], devices) == RequiredSpeed(table, selected, devices)
  {
  }

  /** More devices never lower the estimate. */
  lemma MonotoneInDevices(table: seq<Activity>, selected: seq<string>, d1: int, d2: int)
    requires d1 <= d2
    ensures RequiredSpeed(table, selected, d1) <= RequiredSpeed(table, selected, d2)
  {
  }

  /** Appending any id to the selection never lowers the estimate, for a valid device count. */
  lemma MonotoneInAppend(table: seq<Activity>, selected: seq<string>, id: string, devices: int)
    requires devices >= MinDevices
    ensures RequiredSpeed(table, selected, devices) <= RequiredSpeed(table, selected + [id], devices)
  {
  }

  /** Checking a box never lowers the estimate, and unchecking one never raises it. */
  lemma ToggleMonotone(table: seq<Activity>, selected: seq<string>, id: string, devices: int)
    requires devices >= MinDevices
    requires NoDup(selected)
    ensures id !in selected ==> RequiredSpeed(table, selected, devices) <= RequiredSpeed(table, Toggle(selected, id), devices)
    ensures id in selected ==> RequiredSpeed(table, Toggle(selected, id), devices) <= RequiredSpeed(table, selected, devices)
  {
    if id !in selected {
      MonotoneInAppend(table, selected, id, devices);
    } else {
      var i :| 0 <= i < |selected| && selected[i] == id;
      ToggleRemovesInPlace(selected, id, i);
      var pre, post := selected[..i], selected[i + 1..];
      assert selected == pre + ([id] + post);
      BaseSpeedAppend(table, pre, [id] + post);
      BaseSpeedAppend(table, [id], post);
      BaseSpeedAppend(table, pre, post);
    }
  }

  // ---------------------------------------------------------------------------
  // The sum as a sum over the table
  // ---------------------------------------------------------------------------

  /** Reference definition: the weights of the table rows whose id is selected. */
  function TableSum(table: seq<Activity>, selected: seq<string>): nat
  {
    if |table| == 0 then 0
    else (if table[0].id in selected then table[0].mbpsPerDevice else 0) + TableSum(table[1..], selected)
  }

  /** Selecting an id that no row carries does not change the table sum. */
  lemma {:induction false} TableSumIgnores(table: seq<Activity>, selected: seq<string>, id: string)
    requires forall i :: 0 <= i < |table| ==> table[i].id != id
    ensures TableSum(table, selected + [id]) == TableSum(table, selected)
  {
    if |table| > 0 {
      TableSumIgnores(table[1..], selected, id);
    }
  }

  /** Selecting one more id adds exactly that id's weight to the table sum. */
  lemma {:induction false} TableSumAdd(table: seq<Activity>, selected: seq<string>, id: string)
    requires DistinctIds(table)
    requires id !in selected
    ensures TableSum(table, selected + [id]) == TableSum(table, selected) + Weight(table, id)
  {
    if |table| > 0 {
      if table[0].id == id {
        TableSumIgnores(table[1..], selected, id);
      } else {
        TableSumAdd(table[1..], selected, id);
      }
    }
  }

  /**
   For a duplicate-free selection and a table with distinct ids, the
   left fold over the selection equals the sum over the table's selected
   rows: the order of selection does not matter.
   */
  lemma {:induction false} BaseSpeedIsTableSum(table: seq<Activity>, selected: seq<string>)
    requires DistinctIds(table)
    requires NoDup(selected)
    ensures BaseSpeed(table, selected) == TableSum(table, selected)
  {
    if |selected| == 0 {
      TableSumEmpty(table, selected);
    } else {
      var init, last := selected[..|selected| - 1], selected[|selected| - 1];
      assert selected == init + [last];
      BaseSpeedIsTableSum(table, init);
      TableSumAdd(table, init, last);
    }
  }

  /** No row is selected by the empty selection. */
  lemma {:induction false} TableSumEmpty(table: seq<Activity>, selected: seq<string>)
    requires |selected| == 0
    ensures TableSum(table, selected) == 0
  {
    if |table| > 0 {
      TableSumEmpty(table[1..], selected);
    }
  }

  /** The table sum grows with the set of selected ids. */
  lemma {:induction false} TableSumMonotone(table: seq<Activity>, s: seq<string>, t: seq<string>)
    requires forall x :: x in s ==> x in t
    ensures TableSum(table, s) <= TableSum(table, t)
  {
    if |table| > 0 {
      TableSumMonotone(table[1..], s, t);
    }
  }

  /** A superset selection never gets a lower estimate, for a valid device count. */
  lemma SupersetMonotone(table: seq<Activity>, s: seq<string>, t: seq<string>, devices: int)
    requires DistinctIds(table)
    requires NoDup(s) && NoDup(t)
    requires forall x :: x in s ==> x in t
    requires devices >= MinDevices
    ensures BaseSpeed(table, s) <= BaseSpeed(table, t)
    ensures RequiredSpeed(table, s, devices) <= RequiredSpeed(table, t, devices)
  {
    BaseSpeedIsTableSum(table, s);
    BaseSpeedIsTableSum(table, t);
    TableSumMonotone(table, s, t);
    if |s| > 0 {
      assert s[0] in t;
    }
  }

  /** With positive weights, the sum is zero exactly when no selected id is in the table. */
  lemma {:induction false} BaseSpeedZeroIff(table: seq<Activity>, selected: seq<string>)
    requires PositiveWeights(table)
    ensures BaseSpeed(table, selected) == 0 <==> forall i :: 0 <= i < |selected| ==> Find(table, selected[i]).None?
  {
    if |selected| > 0 {
      var init := selected[..|selected| - 1];
      BaseSpeedZeroIff(table, init);
      var last := selected[|selected| - 1];
      if Find(table, last).Some? {
        var a := Find(table, last).value;
        var k :| 0 <= k < |table| && table[k] == a;
      }
      assert forall i :: 0 <= i < |init| ==> init[i] == selected[i];
    }
  }

  /** The shipped table has distinct ids and positive weights. */
  lemma TableWellFormed()
    ensures DistinctIds(Table) && PositiveWeights(Table)
    ensures |Table| == 4
  {
  }
}
