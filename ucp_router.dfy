/** The UCP document table of app/routers/ucp_router.py: uploading a document
    adds an inactive row, and activating one makes it the only active row.
    The table is the list of `UCPDocument` rows; database sessions, the file
    copy and the vector index build are not modelled. */
module UcpRouter {
  import opened PyJson

  /** One `UCPDocument` row. */
  datatype UcpDoc = UcpDoc(id: int, name: string, description: string, filepath: string, active: bool)

  /** Ids are primary keys: positive and distinct. */
  predicate UniqueIds(rows: seq<UcpDoc>) {
    && (forall i :: 0 <= i < |rows| ==> rows[i].id >= 1)
    && (forall i, j :: 0 <= i < j < |rows| ==> rows[i].id != rows[j].id)
  }

  /** The position of the row with the given id, if there is one. */
  function FindId(rows: seq<UcpDoc>, id: int): (r: Option<nat>)
    ensures r.Some? ==> r.value < |rows| && rows[r.value].id == id
    ensures r.None? ==> forall i :: 0 <= i < |rows| ==> rows[i].id != id
  {
    if rows == [] then None
    else if rows[0].id == id then Some(0)
    else
      match FindId(rows[1..], id)
      case Some(k) => Some(k + 1)
      case None => None
  }

  /** The number of active rows. */
  function ActiveCount(rows: seq<UcpDoc>): (n: nat)
    ensures n <= |rows|
  {
    if rows == [] then 0 else (if rows[0].active then 1 else 0) + ActiveCount(rows[1..])
  }

  /** The table after `activate_ucp` on the row at position `k`: with `active`
      every other row is switched off; in both cases the target takes the
      requested flag and nothing but `active` changes. */
  function Activated(rows: seq<UcpDoc>, k: nat, active: bool): (r: seq<UcpDoc>)
    requires k < |rows|
    ensures |r| == |rows|
    ensures forall i :: 0 <= i < |rows| ==> r[i].(active := rows[i].active) == rows[i]
    ensures r[k].active == active
    ensures active ==> forall i :: 0 <= i < |rows| && i != k ==> !r[i].active
    ensures !active ==> forall i :: 0 <= i < |rows| && i != k ==> r[i] == rows[i]
  {
    seq(|rows|, i requires 0 <= i < |rows| =>
      if i == k then rows[i].(active := active)
      else if active then rows[i].(active := false)
      else rows[i])
  }

  /** A table whose only active row is at `k` has exactly one active row. */
  lemma {:induction false} OnlyOneActive(rows: seq<UcpDoc>, k: nat)
    requires k < |rows|
    requires forall i :: 0 <= i < |rows| ==> (rows[i].active <==> i == k)
    ensures ActiveCount(rows) == 1
    decreases k
  {
    if k == 0 {
      NoneActive(rows[1..]);
    } else {
      OnlyOneActive(rows[1..], k - 1);
    }
  }

  lemma {:induction false} NoneActive(rows: seq<UcpDoc>)
    requires forall i :: 0 <= i < |rows| ==> !rows[i].active
    ensures ActiveCount(rows) == 0
  {
    if rows != [] {
      NoneActive(rows[1..]);
    }
  }

  /** Activating a document leaves exactly one active document. */
  lemma ActivateLeavesOneActive(rows: seq<UcpDoc>, k: nat)
    requires k < |rows|
    ensures ActiveCount(Activated(rows, k, true)) == 1
  {
    OnlyOneActive(Activated(rows, k, true), k);
  }

  /** The number of active rows, once the flag at `k` is replaced. */
  lemma {:induction false} CountAfterUpdate(rows: seq<UcpDoc>, k: nat, flag: bool)
    requires k < |rows|
    ensures ActiveCount(rows[k := rows[k].(active := flag)]) + (if rows[k].active then 1 else 0)
         == ActiveCount(rows) + (if flag then 1 else 0)
    decreases k
  {
    var updated := rows[k := rows[k].(active := flag)];
    if k == 0 {
      assert updated[1..] == rows[1..];
    } else {
      assert updated[1..] == rows[1..][k - 1 := rows[k].(active := flag)];
      CountAfterUpdate(rows[1..], k - 1, flag);
    }
  }

  /** Deactivating never adds an active row: with at most one active row
      before, there is at most one after, whichever flag is requested. */
  lemma ActivatePreservesAtMostOne(rows: seq<UcpDoc>, k: nat, active: bool)
    requires k < |rows| && ActiveCount(rows) <= 1
    ensures ActiveCount(Activated(rows, k, active)) <= 1
  {
    if active {
      ActivateLeavesOneActive(rows, k);
    } else {
      assert Activated(rows, k, false) == rows[k := rows[k].(active := false)];
      CountAfterUpdate(rows, k, false);
    }
  }

  /** Appending an inactive row leaves the number of active rows unchanged. */
  lemma {:induction false} CountAppendInactive(rows: seq<UcpDoc>, d: UcpDoc)
    requires !d.active
    ensures ActiveCount(rows + [d]) == ActiveCount(rows)
  {
    if rows == [] {
      assert [d][1..] == [];
    } else {
      assert (rows + [d])[1..] == rows[1..] + [d];
      CountAppendInactive(rows[1..], d);
    }
  }

  /** The id the database assigns to the next row: one past the largest in use. */
  function NextId(rows: seq<UcpDoc>): (id: int)
    ensures id >= 1
    ensures forall i :: 0 <= i < |rows| ==> rows[i].id < id
  {
    if rows == [] then 1
    else
      var rest := NextId(rows[1..]);
      if rows[0].id + 1 > rest then rows[0].id + 1 else rest
  }

  /** The detail of the 404 raised for an unknown id. */
  const NotFound := "UCP not found"

  /** The `UCPDocument` table.  `Valid` is what every handler keeps: ids are
      distinct primary keys, and at most one document is active. */
  class UcpTable {
    var rows: seq<UcpDoc>

    ghost predicate Valid()
      reads this
    {
      UniqueIds(rows) && ActiveCount(rows) <= 1
    }

    constructor()
      ensures Valid() && rows == []
    {
      rows := [];
    }

    /** `upload_ucp`: a new inactive row holding the name, the description (or
        "" when none is given) and the stored file's path. */
    method Upload(name: string, description: Option<string>, filepath: string) returns (id: int)
      requires Valid()
      modifies this
      ensures Valid()
      ensures id == NextId(old(rows))
      ensures rows == old(rows) + [UcpDoc(id, name, description.GetOr(""), filepath, false)]
    {
      id := NextId(rows);
      var doc := UcpDoc(id, name, description.GetOr(""), filepath, false);
      CountAppendInactive(rows, doc);
      rows := rows + [doc];
    }

    /** `activate_ucp`: 404 when no row has the id; otherwise, when `active` is
        set, every row is switched off first, then the target gets the flag.
        The reply carries the id and the flag now stored. */
    method Activate(ucpId: int, active: bool) returns (r: Result<(int, bool)>)
      requires Valid()
      modifies this
      ensures Valid()
      ensures FindId(old(rows), ucpId).None? ==> r == Err(HttpError(404, NotFound)) && rows == old(rows)
      ensures FindId(old(rows), ucpId).Some? ==>
        && r == Ok((ucpId, active))
        && rows == Activated(old(rows), FindId(old(rows), ucpId).value, active)
    {
      var found := FindId(rows, ucpId);
      if found.None? {
        return Err(HttpError(404, NotFound));
      }
      var k := found.value;
      ghost var before := rows;
      if active {
        var i := 0;
        while i < |rows|
          invariant 0 <= i <= |rows| == |before|
          invariant forall j :: 0 <= j < i ==> rows[j] == before[j].(active := false)
          invariant forall j :: i <= j < |rows| ==> rows[j] == before[j]
        {
          rows := rows[i := rows[i].(active := false)];
          i := i + 1;
        }
      }
      rows := rows[k := rows[k].(active := active)];
      assert rows == Activated(before, k, active);
      ActivatePreservesAtMostOne(before, k, active);
      return Ok((rows[k].id, rows[k].active));
    }
  }
}
