/** The request decisions of the advertisement controller: search with paging,
    lookup by id, and deletion restricted to the owner or an administrator. */
module Controllers {
  import opened Domain
  import Paging

  /** POST /advertisements/search: `matching` is what the advertisement service
      returned for the request's filter and category; the answer is always 200
      with the paged envelope. */
  function SearchAdvertisements(matching: seq<Advertisement>, pageNumber: int, pageSize: int)
    : (r: Response<Paging.PagedOutput<Advertisement>>)
    requires pageSize >= 1
    ensures r.Ok? && r.StatusCode() == 200
    ensures r.value == Paging.Page(matching, pageNumber, pageSize)
  {
    Ok(Paging.Page(matching, pageNumber, pageSize))
  }

  /** GET /advertisements/{id}: 404 with a fixed error payload when no
      advertisement carries the id, otherwise 200 with that advertisement. */
  function GetAdvertisementById(ads: seq<Advertisement>, adId: int): (r: Response<Advertisement>)
    ensures r.Ok? || r.NotFound?
    ensures r.NotFound? <==> forall a :: a in ads ==> a.id != adId
    ensures r.NotFound? ==> r.StatusCode() == 404 && r.error == Some(ErrorResponse(
      "Advertisement not found.", "Advertisement may be not active or is deleted."))
    ensures r.Ok? ==> r.StatusCode() == 200 && r.value in ads && r.value.id == adId
  {
    match FindAdvertisement(ads, adId)
    case None =>
      NotFound(Some(ErrorResponse("Advertisement not found.", "Advertisement may be not active or is deleted.")))
    case Some(ad) => Ok(ad)
  }

  /** In a store keyed by id, a lookup of a stored advertisement answers with exactly it. */
  lemma GetStoredAdvertisement(ads: seq<Advertisement>, a: Advertisement)
    requires UniqueIds(ads) && a in ads
    ensures GetAdvertisementById(ads, a.id) == Ok(a)
  {
    FindUnique(ads, a);
  }

  /** DELETE /advertisements/delete/{id}: the answer for caller `callerId`
      asking to delete advertisement `adId`. */
  function DeleteOutcome(users: map<int, User>, ads: seq<Advertisement>, callerId: int, adId: int)
    : (r: Response<()>)
    ensures r.NotFound? <==> callerId !in users || forall a :: a in ads ==> a.id != adId
    ensures r.NotFound? ==> r.error.None? && r.StatusCode() == 404
    ensures r.Unauthorized? ==> r.StatusCode() == 401 && callerId in users && users[callerId].role < Admin
    ensures r.Ok? ==> r.StatusCode() == 200
  {
    match (FindAdvertisement(ads, adId), GetUserById(users, callerId))
    case (Some(ad), Some(user)) =>
      if ad.userId != user.id && user.role < Admin then Unauthorized else Ok(())
    case _ => NotFound(None)
  }

  /** The owner of an advertisement may always delete it. */
  lemma OwnerMayDelete(users: map<int, User>, ads: seq<Advertisement>, callerId: int, a: Advertisement)
    requires KeyedById(users) && UniqueIds(ads)
    requires callerId in users && a in ads && a.userId == callerId
    ensures DeleteOutcome(users, ads, callerId, a.id) == Ok(())
  {
    FindUnique(ads, a);
  }

  /** A caller at or above the Admin role may delete any stored advertisement. */
  lemma AdminMayDelete(users: map<int, User>, ads: seq<Advertisement>, callerId: int, a: Advertisement)
    requires callerId in users && users[callerId].role >= Admin && a in ads
    ensures DeleteOutcome(users, ads, callerId, a.id) == Ok(())
  {
  }

  /** Any other caller (present, neither owner nor Admin) is refused. */
  lemma OthersMayNotDelete(users: map<int, User>, ads: seq<Advertisement>, callerId: int, a: Advertisement)
    requires KeyedById(users) && UniqueIds(ads)
    requires callerId in users && users[callerId].role < Admin && a in ads && a.userId != callerId
    ensures DeleteOutcome(users, ads, callerId, a.id) == Unauthorized
  {
    FindUnique(ads, a);
  }

  /** The shared store the controller's services read and change. */
  class AdvertisementController {
    var advertisements: seq<Advertisement>
    var users: map<int, User>

    ghost predicate Valid()
      reads this
    {
      UniqueIds(advertisements) && KeyedById(users)
    }

    constructor (ads: seq<Advertisement>, users: map<int, User>)
      requires UniqueIds(ads) && KeyedById(users)
      ensures Valid()
      ensures advertisements == ads && this.users == users
    {
      advertisements := ads;
      this.users := users;
    }

    /** Answers as DeleteOutcome says; on success the advertisement with that id
        is gone and every other one is kept, in order, and the users are untouched. */
    method DeleteAdvertisement(callerId: int, adId: int) returns (r: Response<()>)
      requires Valid()
      modifies this
      ensures Valid()
      ensures r == DeleteOutcome(old(users), old(advertisements), callerId, adId)
      ensures users == old(users)
      ensures !r.Ok? ==> advertisements == old(advertisements)
      ensures r.Ok? ==> exists k :: (0 <= k < |old(advertisements)| && old(advertisements)[k].id == adId
                                     && advertisements == RemoveAt(old(advertisements), k))
      ensures r.Ok? ==> |advertisements| == |old(advertisements)| - 1
      ensures r.Ok? ==> forall a :: a in advertisements <==> a in old(advertisements) && a.id != adId
    {
      var user := GetUserById(users, callerId);
      var index := IndexOfId(advertisements, adId);
      if index.None? || user.None? {
        return NotFound(None);
      }
      var k := index.value;
      var ad := advertisements[k];
      if ad.userId != user.value.id && user.value.role < Admin {
        return Unauthorized;
      }
      RemoveAtKeepsOthers(advertisements, k);
      advertisements := RemoveAt(advertisements, k);
      r := Ok(());
    }
  }
}
