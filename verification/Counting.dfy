/**
  Validation by counting: createOrder (public.service.ts) and setRolePermissions (roles.service.ts)
  look rows up by a list of ids and compare the number of rows with the length of the list.
*/
module Counting {
  import opened Text

  type Id = string

  /** The columns that are used: a price, and whether the row may be chosen. */
  datatype Row = Row(id: Id, price: real, isActive: bool)

  type Table = map<Id, Row>

  predicate Qualifies(table: Table, id: Id) {
    id in table && table[id].isActive
  }

  predicate Distinct(ids: seq<Id>) {
    forall i, j :: 0 <= i < j < |ids| ==> ids[i] != ids[j]
  }

  function IdSet(ids: seq<Id>): set<Id> {
    set x <- ids
  }

  function IdsOf(rows: seq<Row>): (r: seq<Id>)
    ensures |r| == |rows|
  {
    seq(|rows|, i requires 0 <= i < |rows| => rows[i].id)
  }

  /** `findMany` with `id in ids` and `isActive`: every qualifying row once, in any order. */
  ghost predicate IsFindMany(table: Table, ids: seq<Id>, rows: seq<Row>) {
    && Distinct(IdsOf(rows))
    && (forall i :: 0 <= i < |rows| ==>
          Qualifies(table, rows[i].id) && rows[i].id in ids && rows[i] == table[rows[i].id])
    && (forall id <- ids :: Qualifies(table, id) ==> id in IdsOf(rows))
  }

  // ---------------------------------------------------------------- counting

  lemma {:induction false} SizeOfIds(ids: seq<Id>)
    ensures |IdSet(ids)| <= |ids|
    ensures |IdSet(ids)| == |ids| <==> Distinct(ids)
  {
    if ids != [] {
      var front, last := ids[..|ids| - 1], ids[|ids| - 1];
      assert ids == front + [last];
      SizeOfIds(front);
      assert IdSet(ids) == IdSet(front) + {last};
      if last in front {
        assert IdSet(ids) == IdSet(front);
        var i :| 0 <= i < |front| && front[i] == last;
        assert ids[i] == ids[|ids| - 1];
      } else {
        assert Distinct(front) ==> Distinct(ids);
      }
    }
  }

  lemma SubsetSize(a: set<Id>, b: set<Id>)
    requires a <= b
    ensures |a| <= |b|
    ensures |a| == |b| <==> a == b
  {
    assert b == a + (b - a);
  }

  /** MAIN RESULT.  The count agrees exactly when the requested ids are distinct and all qualify. */
  lemma CountIsExact(table: Table, ids: seq<Id>, rows: seq<Row>)
    requires IsFindMany(table, ids, rows)
    ensures |rows| == |ids| <==> Distinct(ids) && forall id <- ids :: Qualifies(table, id)
  {
    var found, wanted := IdSet(IdsOf(rows)), IdSet(ids);
    SizeOfIds(ids);
    SizeOfIds(IdsOf(rows));
    assert found <= wanted by {
      forall x | x in found ensures x in wanted {
        var i :| 0 <= i < |rows| && IdsOf(rows)[i] == x;
      }
    }
    SubsetSize(found, wanted);
    assert found == wanted <==> forall id <- ids :: Qualifies(table, id) by {
      FoundAll(table, ids, rows);
    }
  }

  lemma FoundAll(table: Table, ids: seq<Id>, rows: seq<Row>)
    requires IsFindMany(table, ids, rows)
    ensures forall id <- ids :: Qualifies(table, id) <==> id in IdSet(IdsOf(rows))
  {
    forall id | id in ids ensures Qualifies(table, id) <==> id in IdSet(IdsOf(rows)) {
      if id in IdSet(IdsOf(rows)) {
        var i :| 0 <= i < |rows| && IdsOf(rows)[i] == id;
        assert rows[i].id == id;
      }
    }
  }

  /** `serviceIds.filter((id) => !foundIds.has(id))` */
  function Missing(ids: seq<Id>, rows: seq<Row>): seq<Id> {
    if ids == [] then []
    else Missing(ids[..|ids| - 1], rows) + if ids[|ids| - 1] in IdSet(IdsOf(rows)) then [] else [ids[|ids| - 1]]
  }

  lemma {:induction false} MissingIsExact(ids: seq<Id>, rows: seq<Row>)
    ensures Missing(ids, rows) == [] <==> forall id <- ids :: id in IdSet(IdsOf(rows))
  {
    if ids != [] {
      assert ids == ids[..|ids| - 1] + [ids[|ids| - 1]];
      MissingIsExact(ids[..|ids| - 1], rows);
    }
  }

  /** The missing ids are those requested ids that were not found. */
  lemma {:induction false} MissingAreUnfound(ids: seq<Id>, rows: seq<Row>, x: Id)
    ensures x in Missing(ids, rows) <==> x in ids && x !in IdSet(IdsOf(rows))
  {
    if ids != [] {
      assert ids == ids[..|ids| - 1] + [ids[|ids| - 1]];
      MissingAreUnfound(ids[..|ids| - 1], rows, x);
    }
  }

  /** A rejected request names no missing id exactly when all ids qualify, that is, when its only fault
      is that an id occurs twice. */
  lemma RejectedWithoutMissing(table: Table, ids: seq<Id>, rows: seq<Row>)
    requires IsFindMany(table, ids, rows) && |rows| != |ids|
    ensures Missing(ids, rows) == [] <==> forall id <- ids :: Qualifies(table, id)
    ensures Missing(ids, rows) == [] ==> !Distinct(ids)
  {
    CountIsExact(table, ids, rows);
    FoundAll(table, ids, rows);
    MissingIsExact(ids, rows);
  }

  /** An order for the same active service twice is rejected, and the message names no service. */
  lemma RepeatedServiceIsRejected(row: Row)
    requires row.isActive
    ensures var table, ids, rows := map[row.id := row], [row.id, row.id], [row];
            IsFindMany(table, ids, rows) && |rows| != |ids| && Missing(ids, rows) == []
  {
    var table, ids, rows := map[row.id := row], [row.id, row.id], [row];
    assert IdsOf(rows)[0] == row.id;
    assert IsFindMany(table, ids, rows);
    RejectedWithoutMissing(table, ids, rows);
  }

  // ---------------------------------------------------------------- the total

  function Total(rows: seq<Row>): real {
    if rows == [] then 0.0 else rows[0].price + Total(rows[1..])
  }

  function TotalOf(table: Table, ids: seq<Id>): real
    requires forall id <- ids :: id in table
  {
    if ids == [] then 0.0 else table[ids[0]].price + TotalOf(table, ids[1..])
  }

  /** The total is a sum: of one price for one id, and of the parts for a list. */
  lemma {:induction false} TotalIsSum(table: Table, x: seq<Id>, y: seq<Id>, id: Id)
    requires (forall i <- x :: i in table) && (forall i <- y :: i in table) && id in table
    ensures forall i <- x + y :: i in table
    ensures TotalOf(table, x + y) == TotalOf(table, x) + TotalOf(table, y)
    ensures TotalOf(table, [id]) == table[id].price
  {
    assert [id][1..] == [];
    if x == [] {
      assert x + y == y;
    } else {
      assert (x + y)[1..] == x[1..] + y;
      TotalIsSum(table, x[1..], y, id);
    }
  }

  lemma {:induction false} TotalWithout(rows: seq<Row>, i: nat)
    requires i < |rows|
    ensures Total(rows) == rows[i].price + Total(rows[..i] + rows[i + 1..])
  {
    if i == 0 {
      assert rows[..0] + rows[1..] == rows[1..];
    } else {
      var rest := rows[..i] + rows[i + 1..];
      TotalWithout(rows[1..], i - 1);
      assert rest[0] == rows[0] && rest[1..] == rows[1..][..i - 1] + rows[1..][i..];
    }
  }

  /** Whatever the order in which the database returns the rows, they cost what was asked for. */
  lemma {:induction false} TotalIsRequested(table: Table, ids: seq<Id>, rows: seq<Row>)
    requires Distinct(ids) && Distinct(IdsOf(rows)) && |rows| == |ids|
    requires forall id <- ids :: id in table && id in IdsOf(rows)
    requires forall i :: 0 <= i < |rows| ==> rows[i].id in table && rows[i] == table[rows[i].id]
    ensures Total(rows) == TotalOf(table, ids)
    decreases |ids|
  {
    if ids != [] {
      assert ids[0] in ids && ids[0] in IdsOf(rows);
      var i :| 0 <= i < |rows| && IdsOf(rows)[i] == ids[0];
      var rest := rows[..i] + rows[i + 1..];
      TotalWithout(rows, i);
      forall id | id in ids[1..] ensures id in IdsOf(rest) {
        IdStays(ids, rows, i, id);
      }
      assert forall j :: 0 <= j < |rest| ==> rest[j] == rows[if j < i then j else j + 1];
      assert forall j :: 0 <= j < |rest| ==> IdsOf(rest)[j] == IdsOf(rows)[if j < i then j else j + 1];
      TotalIsRequested(table, ids[1..], rest);
    }
  }

  lemma IdStays(ids: seq<Id>, rows: seq<Row>, i: nat, id: Id)
    requires Distinct(ids) && ids != [] && i < |rows| && IdsOf(rows)[i] == ids[0]
    requires id in ids[1..] && id in IdsOf(rows)
    ensures id in IdsOf(rows[..i] + rows[i + 1..])
  {
    var k :| 0 <= k < |ids[1..]| && ids[1..][k] == id;
    assert id == ids[k + 1] != ids[0];
    var j :| 0 <= j < |rows| && IdsOf(rows)[j] == id;
    var rest := rows[..i] + rows[i + 1..];
    var j' := if j < i then j else j - 1;
    assert rest[j'] == rows[j];
    assert IdsOf(rest)[j'] == id;
  }

  /** The validation and the estimate of createOrder.  None stands for the BadRequestException. */
  method EstimateOrder(table: Table, serviceIds: seq<Id>, rows: seq<Row>) returns (total: Option<real>)
    requires IsFindMany(table, serviceIds, rows)
    ensures total.Some? <==> Distinct(serviceIds) && forall id <- serviceIds :: Qualifies(table, id)
    ensures total.Some? ==> total.value == TotalOf(table, serviceIds)
  {
    CountIsExact(table, serviceIds, rows);
    if |rows| != |serviceIds| {
      return None;
    }
    var sum := 0.0;
    for i := 0 to |rows|
      invariant sum + Total(rows[i..]) == Total(rows)
    {
      sum := sum + rows[i].price;
      assert rows[i..][1..] == rows[i + 1..];
    }
    TotalIsRequested(table, serviceIds, rows);
    return Some(sum);
  }

  // ---------------------------------------------------------------- role permissions

  datatype Reply = Permissions(ids: set<Id>) | NotFound | BadRequest

  datatype Role = Role(isSystem: bool)

  class RolesService {
    const roles: map<Id, Role>
    const permissions: Table
    var rolePermissions: set<(Id, Id)>

    constructor (roles: map<Id, Role>, permissions: Table)
      ensures this.roles == roles && this.permissions == permissions && rolePermissions == {}
    {
      this.roles, this.permissions, rolePermissions := roles, permissions, {};
    }

    /** The permissions that are stored for a role. */
    function PermissionsOf(roleId: Id): set<Id>
      reads this
    {
      StoredFor(rolePermissions, roleId)
    }

    /** rows is what the database finds for the ids; all permissions qualify. */
    method SetRolePermissions(roleId: Id, permissionIds: seq<Id>, rows: seq<Row>) returns (r: Reply)
      requires IsFindMany(permissions, permissionIds, rows)
      modifies this
      ensures r.NotFound? <==> roleId !in roles
      ensures r.Permissions? <==>
                && roleId in roles && !roles[roleId].isSystem
                && Distinct(permissionIds) && forall id <- permissionIds :: Qualifies(permissions, id)
      ensures !r.Permissions? ==> rolePermissions == old(rolePermissions)
      ensures r.Permissions? ==> r.ids == PermissionsOf(roleId) == IdSet(permissionIds)
      ensures forall other :: other != roleId ==> PermissionsOf(other) == old(PermissionsOf(other))
    {
      if roleId !in roles {
        return NotFound;
      }
      if roles[roleId].isSystem {
        return BadRequest;
      }
      CountIsExact(permissions, permissionIds, rows);
      if |rows| != |permissionIds| {
        return BadRequest;
      }
      var others := set p <- rolePermissions | p.0 != roleId;
      var created := set id <- permissionIds :: (roleId, id);
      rolePermissions := others + created;
      forall other | other != roleId ensures PermissionsOf(other) == old(PermissionsOf(other)) {
        OthersUnchanged(old(rolePermissions), rolePermissions, roleId, other);
      }
      assert PermissionsOf(roleId) == IdSet(permissionIds) by {
        forall id | id in permissionIds ensures id in PermissionsOf(roleId) {
          assert (roleId, id) in rolePermissions;
        }
      }
      return Permissions(PermissionsOf(roleId));
    }
  }

  function StoredFor(rolePermissions: set<(Id, Id)>, roleId: Id): set<Id> {
    set p <- rolePermissions | p.0 == roleId :: p.1
  }

  lemma OthersUnchanged(before: set<(Id, Id)>, after: set<(Id, Id)>, roleId: Id, other: Id)
    requires other != roleId
    requires forall p: (Id, Id) :: p.0 != roleId ==> (p in before <==> p in after)
    ensures StoredFor(before, other) == StoredFor(after, other)
  {
    forall x | x in StoredFor(before, other) ensures x in StoredFor(after, other) {
      assert (other, x) in before;
      assert (other, x) in after;
    }
    forall x | x in StoredFor(after, other) ensures x in StoredFor(before, other) {
      assert (other, x) in after;
      assert (other, x) in before;
    }
  }
}
