/** The image metadata store: `SQLite3ImageController` over the image table.
    Each SQL statement is one atomic step on `Database.images`; a statement
    that would break a constraint raises and leaves the table as it was. */
module ImageStore {
  import opened Common
  import opened Schema

  /** The five columns `_update_image_basics` writes. */
  datatype Basics = Basics(name: string, width: int, height: int, hash: string, mime: string)

  /** The record `_save_image_to_db` returns: the new or existing image_id,
      the basic columns as given, the hash, and whether a new row was made. */
  datatype Image = Image(
    id: Option<int>,
    name: string,
    width: int,
    height: int,
    mime: string,
    hash: Option<string>,
    unique: bool)

  /** The record returned when the save hit an integrity error. */
  function Failed(b: Basics): Image
  {
    Image(None, b.name, b.width, b.height, b.mime, None, false)
  }

  /** `SELECT image_id ... WHERE user_id = ? AND image_hash = ?`: the position
      of a row with this owner and hash, if there is one. */
  function FindOwned(images: seq<ImageRow>, userId: int, hash: string): (r: Option<nat>)
    ensures r.Some? ==> r.value < |images| && images[r.value].userId == userId && images[r.value].hash == hash
    ensures r.None? <==> forall i :: 0 <= i < |images| ==> !(images[i].userId == userId && images[i].hash == hash)
  {
    if images == [] then None
    else if images[0].userId == userId && images[0].hash == hash then Some(0)
    else match FindOwned(images[1..], userId, hash)
      case None => None
      case Some(k) => Some(k + 1)
  }

  predicate HashInUse(images: seq<ImageRow>, hash: string)
  {
    exists i :: 0 <= i < |images| && images[i].hash == hash
  }

  /** One row after `SET image_name = ?, ..., image_mime = ?`. */
  function WithBasics(row: ImageRow, b: Basics): ImageRow
  {
    row.(name := b.name, width := b.width, height := b.height, hash := b.hash, mime := b.mime)
  }

  /** The table `_update_image_basics` asks for: every row of the user gets
      the five basic columns, whatever its image_id. */
  function ApplyBasics(images: seq<ImageRow>, userId: int, b: Basics): seq<ImageRow>
  {
    seq(|images|, i requires 0 <= i < |images| =>
      if images[i].userId == userId then WithBasics(images[i], b) else images[i])
  }

  /** The user-wide UPDATE keeps image_hash UNIQUE: each row of the user is
      the only row of the user, and no other row holds the new hash. */
  predicate BasicsFit(images: seq<ImageRow>, userId: int, hash: string)
  {
    forall i, j :: 0 <= i < |images| && 0 <= j < |images| && i != j && images[i].userId == userId ==>
      images[j].userId != userId && images[j].hash != hash
  }

  /** What the update does to each row: the user's rows take the basics and
      keep id, owner, classification and creation time; other rows are
      untouched. */
  lemma ApplyBasicsEffect(images: seq<ImageRow>, userId: int, b: Basics)
    ensures |ApplyBasics(images, userId, b)| == |images|
    ensures forall i :: 0 <= i < |images| ==>
      var r := ApplyBasics(images, userId, b)[i];
      && r.id == images[i].id && r.userId == images[i].userId
      && r.classifiedAs == images[i].classifiedAs && r.createdAt == images[i].createdAt
      && (images[i].userId == userId ==>
            r.name == b.name && r.width == b.width && r.height == b.height
            && r.hash == b.hash && r.mime == b.mime)
      && (images[i].userId != userId ==> r == images[i])
  {
  }

  /** SQLite accepts the user-wide UPDATE exactly when `BasicsFit` holds. */
  lemma BasicsUniqueIff(images: seq<ImageRow>, userId: int, b: Basics)
    requires DistinctBy(images, ImageHashOf)
    ensures DistinctBy(ApplyBasics(images, userId, b), ImageHashOf) <==> BasicsFit(images, userId, b.hash)
  {
    var r := ApplyBasics(images, userId, b);
    if DistinctBy(r, ImageHashOf) {
      forall i, j | 0 <= i < |images| && 0 <= j < |images| && i != j && images[i].userId == userId
        ensures images[j].userId != userId && images[j].hash != b.hash
      {
        assert ImageHashOf(r[i]) != ImageHashOf(r[j]);
      }
    }
    if BasicsFit(images, userId, b.hash) {
      forall i, j | 0 <= i < j < |r| ensures ImageHashOf(r[i]) != ImageHashOf(r[j]) {
        assert ImageHashOf(images[i]) != ImageHashOf(images[j]);
      }
    }
  }

  /** Re-saving an image the user already owns succeeds exactly when that
      row is the only row the user owns: a user with two or more images
      always gets the failure record. */
  lemma ReSaveSucceedsIff(images: seq<ImageRow>, userId: int, hash: string, k: nat)
    requires DistinctBy(images, ImageHashOf)
    requires k < |images| && images[k].userId == userId && images[k].hash == hash
    ensures BasicsFit(images, userId, hash) <==>
      forall j :: 0 <= j < |images| && j != k ==> images[j].userId != userId
  {
    if forall j :: 0 <= j < |images| && j != k ==> images[j].userId != userId {
      forall i, j | 0 <= i < |images| && 0 <= j < |images| && i != j && images[i].userId == userId
        ensures images[j].userId != userId && images[j].hash != hash
      {
        assert i == k;
        if j < k {
          assert ImageHashOf(images[j]) != ImageHashOf(images[k]);
        } else {
          assert ImageHashOf(images[k]) != ImageHashOf(images[j]);
        }
      }
    }
  }

  /** The user-wide UPDATE, when SQLite accepts it, keeps every table
      constraint: ids and owners are untouched. */
  lemma ApplyBasicsKeepsValid(images: seq<ImageRow>, users: seq<UserRow>, imageSeq: int, userId: int, b: Basics)
    requires ImageTableValid(images, imageSeq) && ForeignKeysHold(images, users)
    requires DistinctBy(ApplyBasics(images, userId, b), ImageHashOf)
    ensures ImageTableValid(ApplyBasics(images, userId, b), imageSeq)
    ensures ForeignKeysHold(ApplyBasics(images, userId, b), users)
  {
    var r := ApplyBasics(images, userId, b);
    SameKeysKeepDistinct(images, r, ImageIdOf, ImageIdOf);
  }

  /** `UPDATE ... SET classified_as = ? WHERE image_id = ?`. */
  function Classify(images: seq<ImageRow>, imageId: int, category: string): seq<ImageRow>
  {
    seq(|images|, i requires 0 <= i < |images| =>
      if images[i].id == imageId then images[i].(classifiedAs := Some(category)) else images[i])
  }

  /** Setting a classification keeps the table valid and touches nothing but
      classified_as of the row with that id. */
  lemma ClassifyEffect(images: seq<ImageRow>, users: seq<UserRow>, imageSeq: int, imageId: int, category: string)
    requires ImageTableValid(images, imageSeq) && ForeignKeysHold(images, users)
    ensures ImageTableValid(Classify(images, imageId, category), imageSeq)
    ensures ForeignKeysHold(Classify(images, imageId, category), users)
    ensures |Classify(images, imageId, category)| == |images|
    ensures forall i :: 0 <= i < |images| ==>
      Classify(images, imageId, category)[i].(classifiedAs := images[i].classifiedAs) == images[i]
    ensures forall i :: 0 <= i < |images| && images[i].id == imageId ==>
      Classify(images, imageId, category)[i].classifiedAs == Some(category)
    ensures forall i :: 0 <= i < |images| && images[i].id != imageId ==>
      Classify(images, imageId, category)[i] == images[i]
  {
    var r := Classify(images, imageId, category);
    SameKeysKeepDistinct(images, r, ImageIdOf, ImageIdOf);
    SameKeysKeepDistinct(images, r, ImageHashOf, ImageHashOf);
  }

  /** `DELETE ... WHERE image_id = ?`. */
  function DeleteImageRows(images: seq<ImageRow>, imageId: int): seq<ImageRow>
  {
    Filter(images, Except(ImageIdOf, imageId))
  }

  /** Deleting by id removes the one row with that id, keeping the others in
      order, or changes nothing when there is no such row. */
  lemma DeleteImageEffect(images: seq<ImageRow>, imageId: int)
    requires DistinctBy(images, ImageIdOf)
    ensures !HasImage(images, imageId) ==> DeleteImageRows(images, imageId) == images
    ensures forall k :: 0 <= k < |images| && images[k].id == imageId ==>
      DeleteImageRows(images, imageId) == images[..k] + images[k + 1..]
  {
    FilterOutKey(images, ImageIdOf, imageId);
  }

  /** Deleting rows of the image table keeps its constraints. */
  lemma DeleteImageKeepsValid(images: seq<ImageRow>, users: seq<UserRow>, imageSeq: int, keep: ImageRow -> bool)
    requires ImageTableValid(images, imageSeq) && ForeignKeysHold(images, users)
    ensures ImageTableValid(Filter(images, keep), imageSeq)
    ensures ForeignKeysHold(Filter(images, keep), users)
  {
    FilterKeepsDistinct(images, keep, ImageIdOf);
    FilterKeepsDistinct(images, keep, ImageHashOf);
    FilterMembers(images, keep);
    var r := Filter(images, keep);
    forall i | 0 <= i < |r| ensures 1 <= r[i].id <= imageSeq && HasUser(users, r[i].userId) {
      assert r[i] in images;
    }
  }

  /** `SELECT * ... WHERE user_id = ? ORDER BY created_at DESC LIMIT 1`: a
      row of the user with the latest created_at (the earliest such row on a
      tie), or nothing when the user owns no image. */
  function CurrentImage(images: seq<ImageRow>, userId: int): (r: Option<ImageRow>)
    ensures r.None? <==> forall i :: 0 <= i < |images| ==> images[i].userId != userId
    ensures r.Some? ==> r.value in images && r.value.userId == userId
    ensures r.Some? ==> forall i :: 0 <= i < |images| && images[i].userId == userId ==>
      images[i].createdAt <= r.value.createdAt
  {
    if images == [] then None
    else
      var rest := CurrentImage(images[1..], userId);
      if images[0].userId != userId then rest
      else if rest.Some? && rest.value.createdAt > images[0].createdAt then rest
      else Some(images[0])
  }

  /** An image saved later than every other image of its owner becomes the
      owner's current image. */
  lemma {:induction false} SavedLatestIsCurrent(images: seq<ImageRow>, row: ImageRow)
    requires forall i :: 0 <= i < |images| && images[i].userId == row.userId ==>
      images[i].createdAt < row.createdAt
    ensures CurrentImage(images + [row], row.userId) == Some(row)
  {
    if images == [] {
      assert CurrentImage([row][1..], row.userId) == None;
    } else {
      assert (images + [row])[1..] == images[1..] + [row];
      SavedLatestIsCurrent(images[1..], row);
    }
  }

  /** The controller: its methods are the SQL statements it runs, each on
      its own connection and committed before it returns. */
  class ImageController {
    const db: Database

    constructor (db: Database)
      ensures this.db == db
    {
      this.db := db;
    }

    /** `_update_image_basics`: the user-wide UPDATE; `ok` is false when
        SQLite raised an IntegrityError, and then nothing changed. */
    method UpdateBasics(b: Basics, userId: int) returns (ok: bool)
      requires db.Valid()
      modifies db`images
      ensures db.Valid()
      ensures ok <==> BasicsFit(old(db.images), userId, b.hash)
      ensures db.images == if ok then ApplyBasics(old(db.images), userId, b) else old(db.images)
    {
      var updated := ApplyBasics(db.images, userId, b);
      BasicsUniqueIff(db.images, userId, b);
      if DistinctBy(updated, ImageHashOf) {
        ApplyBasicsKeepsValid(db.images, db.users, db.imageSeq, userId, b);
        db.images := updated;
        ok := true;
      } else {
        ok := false;
      }
    }

    /** `_save_image_to_db`: reuse the user's row with this hash (rewriting
        the basics of all the user's rows), or insert a new unclassified row
        stamped `now`; an integrity error yields the failure record and
        leaves the table and the id counter as they were. */
    method SaveImage(b: Basics, userId: int, now: int) returns (r: Image)
      requires db.Valid()
      modifies db`images, db`imageSeq
      ensures db.Valid()
      ensures r.name == b.name && r.width == b.width && r.height == b.height && r.mime == b.mime
      // A row of this user already has the hash: no row is added.
      ensures FindOwned(old(db.images), userId, b.hash).Some? ==>
        var k := FindOwned(old(db.images), userId, b.hash).value;
        && db.imageSeq == old(db.imageSeq)
        && (BasicsFit(old(db.images), userId, b.hash) ==>
              && r == Image(Some(old(db.images)[k].id), b.name, b.width, b.height, b.mime, Some(b.hash), false)
              && db.images == ApplyBasics(old(db.images), userId, b))
        && (!BasicsFit(old(db.images), userId, b.hash) ==>
              r == Failed(b) && db.images == old(db.images))
      // No such row: INSERT, unless the hash is taken or the user is missing.
      ensures FindOwned(old(db.images), userId, b.hash).None? ==>
        if HashInUse(old(db.images), b.hash) || !HasUser(db.users, userId) then
          r == Failed(b) && db.images == old(db.images) && db.imageSeq == old(db.imageSeq)
        else
          && db.imageSeq == old(db.imageSeq) + 1
          && db.images == old(db.images) + [ImageRow(db.imageSeq, b.name, b.width, b.height, b.hash, b.mime, userId, None, now)]
          && (forall i :: 0 <= i < |old(db.images)| ==> old(db.images)[i].id < db.imageSeq)
          && r == Image(Some(db.imageSeq), b.name, b.width, b.height, b.mime, Some(b.hash), true)
    {
      var found := FindOwned(db.images, userId, b.hash);
      if found.Some? {
        var existingId := db.images[found.value].id;
        var ok := UpdateBasics(b, userId);
        if ok {
          r := Image(Some(existingId), b.name, b.width, b.height, b.mime, Some(b.hash), false);
        } else {
          r := Failed(b);
        }
      } else if HashInUse(db.images, b.hash) || !HasUser(db.users, userId) {
        // The INSERT violates UNIQUE(image_hash) or the foreign key.
        r := Failed(b);
      } else {
        var id := db.imageSeq + 1;
        var row := ImageRow(id, b.name, b.width, b.height, b.hash, b.mime, userId, None, now);
        AppendKeepsDistinct(db.images, row, ImageIdOf);
        AppendKeepsDistinct(db.images, row, ImageHashOf);
        db.images := db.images + [row];
        db.imageSeq := id;
        r := Image(Some(id), b.name, b.width, b.height, b.mime, Some(b.hash), true);
      }
    }

    /** `_update_classified_as`: sets the category on the row with that id and
        reports whether there was one. */
    method UpdateClassifiedAs(imageId: int, category: string) returns (updated: bool)
      requires db.Valid()
      modifies db`images
      ensures db.Valid()
      ensures updated <==> HasImage(old(db.images), imageId)
      ensures !updated ==> db.images == old(db.images)
      ensures |db.images| == |old(db.images)|
      ensures forall i :: 0 <= i < |db.images| ==>
        db.images[i] == if old(db.images)[i].id == imageId
                        then old(db.images)[i].(classifiedAs := Some(category))
                        else old(db.images)[i]
    {
      ClassifyEffect(db.images, db.users, db.imageSeq, imageId, category);
      updated := HasImage(db.images, imageId);
      db.images := Classify(db.images, imageId, category);
    }

    /** `_update_image_db`: runs the user-wide update for `userId`; the
        image id it is given plays no part. It returns true, or raises the
        IntegrityError it does not catch. */
    method UpdateImage(imageId: int, b: Basics, userId: int) returns (r: Result<bool>)
      requires db.Valid()
      modifies db`images
      ensures db.Valid()
      ensures r.Ok? ==> r.value
      ensures r.Raised? ==> r.error == IntegrityError
      ensures r.Ok? <==> BasicsFit(old(db.images), userId, b.hash)
      ensures db.images == if r.Ok? then ApplyBasics(old(db.images), userId, b) else old(db.images)
    {
      var ok := UpdateBasics(b, userId);
      if ok {
        r := Ok(true);
      } else {
        r := Raised(IntegrityError);
      }
    }

    /** `delete_image`: removes the row with that id; a missing id is a
        silent no-op. The id counter is not wound back. */
    method DeleteImage(imageId: int)
      requires db.Valid()
      modifies db`images
      ensures db.Valid()
      ensures db.images == DeleteImageRows(old(db.images), imageId)
      ensures !HasImage(old(db.images), imageId) ==> db.images == old(db.images)
      ensures forall k :: 0 <= k < |old(db.images)| && old(db.images)[k].id == imageId ==>
        db.images == old(db.images)[..k] + old(db.images)[k + 1..]
    {
      DeleteImageEffect(db.images, imageId);
      DeleteImageKeepsValid(db.images, db.users, db.imageSeq, Except(ImageIdOf, imageId));
      db.images := DeleteImageRows(db.images, imageId);
    }
  }
}
