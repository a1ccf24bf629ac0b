/** Registered offices: the geofence centers and radii check-ins are measured
    against, and the `active` scope that lists the ones offered for check-in. */
module Offices {
  import opened Base
  import opened Geo

  /** An office row. `radius` is an integer number of meters. */
  datatype Office = Office(
    id: nat,
    name: string,
    address: string,
    center: Coord,
    radius: int,
    isActive: bool)

  /** `Office::find`: the first row with the given id, if any. */
  function FindOffice(offices: seq<Office>, id: nat): (r: Option<Office>)
    ensures r.Some? ==> r.value in offices && r.value.id == id
    ensures r.None? <==> forall i :: 0 <= i < |offices| ==> offices[i].id != id
    decreases |offices|
  {
    if |offices| == 0 then None
    else if offices[0].id == id then Some(offices[0])
    else FindOffice(offices[1..], id)
  }

  predicate IsActiveOffice(o: Office) {
    o.isActive
  }

  /** `Office::active()`: the offices with `is_active` true, in their stored order,
      unmodified. */
  function ActiveOffices(offices: seq<Office>): (r: seq<Office>)
    ensures forall o :: o in r <==> o in offices && o.isActive
    ensures IsSubsequence(r, offices)
  {
    FilterIsSubsequence(offices, IsActiveOffice);
    Filter(offices, IsActiveOffice)
  }

  /** Applying the `active` scope to its own result changes nothing. */
  lemma ActiveOfficesIdempotent(offices: seq<Office>)
    ensures ActiveOffices(ActiveOffices(offices)) == ActiveOffices(offices)
  {
    FilterIdempotent(offices, IsActiveOffice);
  }

  /** Ids are unique across the office table (the primary key). */
  ghost predicate UniqueIds(offices: seq<Office>) {
    forall i, j :: 0 <= i < j < |offices| ==> offices[i].id != offices[j].id
  }

  /** With unique ids, the lookup returns the one row carrying the id. */
  lemma FindOfficeAt(offices: seq<Office>, k: nat)
    requires UniqueIds(offices)
    requires k < |offices|
    ensures FindOffice(offices, offices[k].id) == Some(offices[k])
  {
    if k > 0 {
      assert UniqueIds(offices[1..]) by {
        forall i, j | 0 <= i < j < |offices[1..]|
          ensures offices[1..][i].id != offices[1..][j].id
        {
          assert offices[1..][i] == offices[i + 1] && offices[1..][j] == offices[j + 1];
        }
      }
      FindOfficeAt(offices[1..], k - 1);
    }
  }
}
