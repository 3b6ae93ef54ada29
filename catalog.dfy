/** Task definitions as the catalog file lists them, and lookups by id. */
module Catalog {
  import opened Wrappers
  import opened Calendar

  /** One catalog entry: an inclusive age range, the day types it suits, and its text. */
  datatype TaskDef = TaskDef(id: int, minAge: int, maxAge: int, dayTypes: seq<DayType>, text: string)

  /** `t["min_age"] <= age <= t["max_age"]`. */
  predicate CoversAge(t: TaskDef, age: int) {
    t.minAge <= age <= t.maxAge
  }

  /** Covers the age and is tagged with the day type. */
  predicate Suits(t: TaskDef, age: int, dt: DayType) {
    CoversAge(t, age) && dt in t.dayTypes
  }

  /** `next((t for t in tasks if t["id"] == id), None)`: the first entry with that id. */
  function FindTask(catalog: seq<TaskDef>, id: int): (r: Option<TaskDef>)
    ensures r.None? <==> forall t :: t in catalog ==> t.id != id
    ensures r.Some? ==> r.value in catalog && r.value.id == id
    ensures r.Some? ==> exists i :: 0 <= i < |catalog| && catalog[i] == r.value
                          && forall j :: 0 <= j < i ==> catalog[j].id != id
  {
    if catalog == [] then None
    else if catalog[0].id == id then Some(catalog[0])
    else FindTask(catalog[1..], id)
  }

  /** Catalog ids are unique. */
  predicate UniqueTaskIds(catalog: seq<TaskDef>) {
    forall i, j :: 0 <= i < |catalog| && 0 <= j < |catalog| && catalog[i].id == catalog[j].id ==> i == j
  }

  /** With unique ids, looking a catalog task up by its own id gives that task back. */
  lemma FindOwnTask(catalog: seq<TaskDef>, t: TaskDef)
    requires UniqueTaskIds(catalog) && t in catalog
    ensures FindTask(catalog, t.id) == Some(t)
  {
    var j :| 0 <= j < |catalog| && catalog[j] == t;
  }
}
