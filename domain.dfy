/** Entities of the advertisement marketplace and the lookups the controller makes
    into the shared store: advertisements kept in a sequence, users keyed by id. */
module Domain {

  datatype Option<T> = None | Some(value: T)

  /** A user's privilege level: the ordinal of the UserRole enumeration. Only the
      order between levels matters; `Admin` is the level from which a user may
      delete advertisements of others. */
  type Role = int

  const Admin: Role := 1

  datatype User = User(id: int, username: string, role: Role)

  datatype Advertisement = Advertisement(
    id: int,
    categoryId: int,
    title: string,
    shortDescription: string,
    description: string,
    userId: int)

  /** The structured payload of a not-found answer: a message and a detail. */
  datatype ErrorResponse = ErrorResponse(message: string, detail: string)

  /** What a controller action answers, with its HTTP status code. */
  datatype Response<T> = Ok(value: T) | NotFound(error: Option<ErrorResponse>) | Unauthorized
  {
    function StatusCode(): (code: int)
      ensures code == 200 <==> Ok?
      ensures code == 404 <==> NotFound?
      ensures code == 401 <==> Unauthorized?
    {
      match this
      case Ok(_) => 200
      case NotFound(_) => 404
      case Unauthorized => 401
    }
  }

  /** Advertisement ids are the store's primary key. */
  predicate UniqueIds(ads: seq<Advertisement>) {
    forall i, j :: 0 <= i < j < |ads| ==> ads[i].id != ads[j].id
  }

  /** The user table maps every id to the user that carries it. */
  predicate KeyedById(users: map<int, User>) {
    forall k :: k in users ==> users[k].id == k
  }

  /** Position of the first advertisement whose id is `id`, if there is one. */
  function IndexOfId(ads: seq<Advertisement>, id: int): (r: Option<nat>)
    ensures r.None? <==> forall i :: 0 <= i < |ads| ==> ads[i].id != id
    ensures r.Some? ==> r.value < |ads| && ads[r.value].id == id
    ensures r.Some? ==> forall i :: 0 <= i < r.value ==> ads[i].id != id
  {
    if |ads| == 0 then None
    else if ads[0].id == id then Some(0)
    else
      match IndexOfId(ads[1..], id)
      case None =>
        assert forall i :: 1 <= i < |ads| ==> ads[i] == ads[1..][i - 1];
        None
      case Some(k) =>
        assert forall i :: 1 <= i <= k ==> ads[i] == ads[1..][i - 1];
        Some(k + 1)
  }

  /** The service's lookup of an advertisement by id (first match, or none). */
  function FindAdvertisement(ads: seq<Advertisement>, id: int): (r: Option<Advertisement>)
    ensures r.None? <==> forall a :: a in ads ==> a.id != id
    ensures r.Some? ==> r.value in ads && r.value.id == id
  {
    match IndexOfId(ads, id)
    case None => None
    case Some(k) => Some(ads[k])
  }

  /** In a store keyed by id, the lookup finds exactly the advertisement carrying that id. */
  lemma FindUnique(ads: seq<Advertisement>, a: Advertisement)
    requires UniqueIds(ads)
    requires a in ads
    ensures FindAdvertisement(ads, a.id) == Some(a)
  {
    var j :| 0 <= j < |ads| && ads[j] == a;
    assert IndexOfId(ads, a.id) == Some(j);
  }

  /** The service's lookup of a user by id. */
  function GetUserById(users: map<int, User>, id: int): (r: Option<User>)
    ensures r.Some? <==> id in users
    ensures r.Some? ==> r.value == users[id]
    ensures r.Some? && KeyedById(users) ==> r.value.id == id
  {
    if id in users then Some(users[id]) else None
  }

  /** The store without its k-th advertisement, the others in their order. */
  function RemoveAt(ads: seq<Advertisement>, k: nat): (r: seq<Advertisement>)
    requires k < |ads|
    ensures |r| == |ads| - 1
    ensures forall i :: 0 <= i < k ==> r[i] == ads[i]
    ensures forall i :: k <= i < |r| ==> r[i] == ads[i + 1]
  {
    ads[..k] + ads[k + 1..]
  }

  /** Removing one advertisement from a store keyed by id removes exactly the
      advertisements carrying its id, keeps every other one, and keeps the key. */
  lemma RemoveAtKeepsOthers(ads: seq<Advertisement>, k: nat)
    requires UniqueIds(ads)
    requires k < |ads|
    ensures UniqueIds(RemoveAt(ads, k))
    ensures forall a :: a in RemoveAt(ads, k) <==> a in ads && a.id != ads[k].id
  {
    var r := RemoveAt(ads, k);
    forall i, j | 0 <= i < j < |r|
      ensures r[i].id != r[j].id
    {
      var i' := if i < k then i else i + 1;
      var j' := if j < k then j else j + 1;
      assert r[i] == ads[i'] && r[j] == ads[j'] && i' < j';
    }
    forall a
      ensures a in r <==> a in ads && a.id != ads[k].id
    {
      if a in r {
        var i :| 0 <= i < |r| && r[i] == a;
        var i' := if i < k then i else i + 1;
        assert ads[i'] == a && i' != k;
        if i' < k {
          assert ads[i'].id != ads[k].id;
        } else {
          assert ads[k].id != ads[i'].id;
        }
      }
      if a in ads && a.id != ads[k].id {
        var i :| 0 <= i < |ads| && ads[i] == a;
        assert i != k;
        if i < k {
          assert r[i] == a;
        } else {
          assert r[i - 1] == a;
        }
      }
    }
  }
}
