/** Client code: what a caller can conclude from the controllers'
    contracts alone, for the registration flow and the image flow. */
module Scenarios {
  import opened Common
  import opened Schema
  import opened ImageStore
  import opened UserStore

  /** Registering the same user twice: the second call raises InvalidData,
      even when the second username differs only in letter case. */
  method RegisterTwice()
  {
    var db := new Database();
    var users := new UserController(db);
    var first := users.CreateUser("username", "test@test.com", "hashed", "user");
    assert first.Ok? && first.value.id == 1;
    RegisterAgainConflicts([], db.users[0], "username", "test@test.com");
    var second := users.CreateUser("username", "test@test.com", "hashed", "user");
    assert second == Raised(InvalidData);
    assert |db.users| == 1;
  }

  /** Two users registered through the controller, ids 1 and 2, and no
      images yet. */
  method TwoUsers(name1: string, email1: string, name2: string, email2: string) returns (db: Database)
    requires Lower(name1) != Lower(name2) && Lower(email1) != Lower(email2)
    ensures fresh(db) && db.Valid()
    ensures |db.users| == 2 && db.users[0].id == 1 && db.users[1].id == 2
    ensures db.images == [] && db.imageSeq == 0
  {
    db := new Database();
    var users := new UserController(db);
    var first := users.CreateUser(name1, email1, "hashed", "user");
    assert first.Ok?;
    assert !CreateConflicts(db.users, name2, email2) by {
      assert |db.users| == 1;
    }
    var second := users.CreateUser(name2, email2, "hashed", "user");
  }

  /** One owner uploads an image, a second owner uploads the same bytes,
      then the first image is classified. The second upload does not
      share the first row: the hash is UNIQUE across owners and the
      INSERT fails, so the caller gets the failure record. */
  method UploadAndClassify()
  {
    assert |Lower("seven")| != |Lower("nine")|;
    assert |Lower("seven@example.com")| != |Lower("nine@example.com")|;
    var db := TwoUsers("seven", "seven@example.com", "nine", "nine@example.com");
    var images := new ImageController(db);
    UploadTwiceThenClassify(images, Basics("a.jpeg", 100, 200, "digest", "image/jpeg"));
  }

  /** The image part of the scenario, for users 1 and 2 without images. */
  method UploadTwiceThenClassify(images: ImageController, jpeg: Basics)
    requires images.db.Valid()
    requires |images.db.users| == 2 && images.db.users[0].id == 1 && images.db.users[1].id == 2
    requires images.db.images == [] && images.db.imageSeq == 0
    modifies images.db
  {
    var db := images.db;
    assert FindOwned(db.images, 1, jpeg.hash) == None && !HashInUse(db.images, jpeg.hash);
    assert HasUser(db.users, 1) by { assert db.users[0].id == 1; }
    var saved := images.SaveImage(jpeg, 1, 10);
    assert saved == Image(Some(1), jpeg.name, jpeg.width, jpeg.height, jpeg.mime, Some(jpeg.hash), true);

    var first := ImageRow(1, jpeg.name, jpeg.width, jpeg.height, jpeg.hash, jpeg.mime, 1, None, 10);
    assert db.images == [first];
    assert FindOwned(db.images, 2, jpeg.hash) == None && HashInUse(db.images, jpeg.hash) by {
      assert db.images[0] == first;
    }
    var again := images.SaveImage(jpeg, 2, 11);
    assert again == Failed(jpeg);

    var classified := images.UpdateClassifiedAs(1, "cat");
    assert classified;
    var labelled := first.(classifiedAs := Some("cat"));
    assert |db.images| == 1 && db.images[0] == labelled;
    assert db.images == [labelled];
    assert CurrentImage(db.images, 1) == Some(labelled);
    assert CurrentImage(db.images, 2) == None by {
      assert db.images[0].userId == 1;
    }
  }
}
