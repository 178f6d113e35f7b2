/**
 * Post creation: upload the media parts, validate the body, insert the
 * generic Post, then insert exactly one record of the matching category.
 */
module Create {
  import opened Wrappers
  import opened Rules
  import opened Validation
  import opened Records
  import Upload

  /**
   * A database failure at one of the two inserts, standing for an exception
   * thrown by the ORM. The inserts are not wrapped in a transaction, so a
   * failing second insert leaves the first one in place.
   */
  datatype Fault = NoFault | PostInsertFails(message: string) | RecordInsertFails(message: string)

  /** The HTTP reply: 201 with both new rows, or 400 with an error text. */
  datatype CreateReply = Created(post: PostRow, record: Record) | Rejected(error: string)
  {
    function Status(): int
    {
      if Created? then 201 else 400
    }
  }

  datatype Outcome = Outcome(reply: CreateReply, store: Store)

  const UploadFailedMessage: string := "File upload failed"

  /** The Post row a validated body yields under identifier `id`. */
  function NewPost(id: nat, body: Body, c: Category): (post: PostRow)
    ensures post.id == id
    ensures post.user_id == Get(body, "user_id") && post.name == Get(body, "name") && post.status == Get(body, "status")
    ensures ParseCategory(post.post_type) == Some(c)
  {
    PostRow(id, Get(body, "user_id"), Get(body, "name"), Get(body, "status"), CategoryName(c))
  }

  /** Handles one submission against store `s`. */
  function CreatePost(s: Store, body: Body, files: seq<Upload.IncomingFile>, uploadDir: string, fault: Fault): (o: Outcome)
    ensures !Upload.Admissible(files) ==> o == Outcome(Rejected(UploadFailedMessage), s)
    ensures Upload.Admissible(files) && Validate(body).Failure? ==>
              o == Outcome(Rejected(Message(Validate(body).error)), s)
    ensures o.reply.Created? <==> Upload.Admissible(files) && Validate(body).Success? && fault == NoFault
    ensures o.reply.Status() == 201 <==> o.reply.Created?
    ensures o.reply.Created? ==>
      && o.store.posts == s.posts + [o.reply.post]
      && o.store.records == s.records + [o.reply.record]
      && o.reply.post.id == s.nextPostId
      && o.store.nextPostId == s.nextPostId + 1
      && o.reply.record.id == s.nextRecordId
      && o.store.nextRecordId == s.nextRecordId + 1
      && "post_type" in body && o.reply.post.post_type == body["post_type"]
      && o.reply.post.user_id == Get(body, "user_id")
      && o.reply.post.name == Get(body, "name")
      && o.reply.post.status == Get(body, "status")
      && o.reply.record.post_id == o.reply.post.id
      && ParseCategory(body["post_type"]) == Some(KindOf(o.reply.record.data))
    ensures o.reply.Rejected? ==> o.store.records == s.records
    ensures o.reply.Rejected? && !fault.RecordInsertFails? ==> o.store == s
    ensures (fault.PostInsertFails? || fault.RecordInsertFails?) && Upload.Admissible(files) && Validate(body).Success? ==>
              o.reply == Rejected(fault.message)
    ensures o.reply.Rejected? && fault.RecordInsertFails? && Upload.Admissible(files) && Validate(body).Success? ==>
      && |o.store.posts| == |s.posts| + 1
      && o.store.posts[..|s.posts|] == s.posts
      && o.store.posts[|s.posts|] == NewPost(s.nextPostId, body, Validate(body).value)
      && o.store.nextPostId == s.nextPostId + 1
      && o.store.nextRecordId == s.nextRecordId
  {
    match Upload.Intake(files, uploadDir)
    case Failure(_) => Outcome(Rejected(UploadFailedMessage), s)
    case Success(media) =>
      match Validate(body)
      case Failure(e) => Outcome(Rejected(Message(e)), s)
      case Success(c) =>
        CategoryNameRoundTrip(c);
        if fault.PostInsertFails? then Outcome(Rejected(fault.message), s)
        else
          var post := NewPost(s.nextPostId, body, c);
          var withPost := s.(posts := s.posts + [post], nextPostId := s.nextPostId + 1);
          if fault.RecordInsertFails? then Outcome(Rejected(fault.message), withPost)
          else
            var record := Record(s.nextRecordId, post.id, BuildPayload(c, body, media));
            var withRecord := withPost.(records := s.records + [record], nextRecordId := s.nextRecordId + 1);
            Outcome(Created(post, record), withRecord)
  }

  /** An absent, empty or unknown `post_type` is refused before anything is written. */
  lemma UnknownTypeRejected(s: Store, body: Body, files: seq<Upload.IncomingFile>, uploadDir: string, fault: Fault)
    requires Upload.Admissible(files)
    requires !("post_type" in body && body["post_type"] in {"Atletica", "Aviso", "Comodidades", "Eventos"})
    ensures CreatePost(s, body, files, uploadDir, fault) == Outcome(Rejected("Tipo de postagem inválido"), s)
  {
    assert !NamesCategory(body);
  }

  /**
   * With a known category, the first falsy required field in table order
   * is named in the error, first letter upper-cased, and nothing is written.
   */
  lemma MissingFieldRejected(s: Store, body: Body, files: seq<Upload.IncomingFile>, uploadDir: string,
                             fault: Fault, c: Category, k: nat)
    requires Upload.Admissible(files)
    requires "post_type" in body && body["post_type"] == CategoryName(c)
    requires k < |Required(c)| && !Truthy(body, Required(c)[k])
    requires forall j | 0 <= j < k :: Truthy(body, Required(c)[j])
    ensures CreatePost(s, body, files, uploadDir, fault)
            == Outcome(Rejected(Capitalize(Required(c)[k]) + " é obrigatório para " + CategoryName(c)), s)
  {
    CategoryNameRoundTrip(c);
    var r := Validate(body);
    assert r.Failure? && r.error.MissingField?;
    var req := Required(c);
    var k' :| 0 <= k' < |req| && req[k'] == r.error.field && !Truthy(body, req[k'])
              && forall j | 0 <= j < k' :: Truthy(body, req[j]);
    assert k' == k;
  }

  /**
   * The new category record carries exactly its table's columns: the text
   * columns copied from the body and, outside Aviso, the stored path of
   * each uploaded media part or null. An Aviso record never carries media.
   */
  lemma CreatedRecordContents(s: Store, body: Body, files: seq<Upload.IncomingFile>, uploadDir: string, fault: Fault)
    requires CreatePost(s, body, files, uploadDir, fault).reply.Created?
    ensures var rec := CreatePost(s, body, files, uploadDir, fault).reply.record;
      var c := KindOf(rec.data);
      && (forall key | key in Columns(c) :: FieldOf(rec.data, key) == Some(Get(body, key)))
      && (forall key :: FieldOf(rec.data, key).Some? <==> IsColumn(c, key))
      && (c == Aviso ==> FieldOf(rec.data, "foto") == None && FieldOf(rec.data, "video") == None)
      && (HasMedia(c) && !Upload.Uploaded(files, "foto") ==> FieldOf(rec.data, "foto") == Some(None))
      && (HasMedia(c) && !Upload.Uploaded(files, "video") ==> FieldOf(rec.data, "video") == Some(None))
      && (forall i | 0 <= i < |files| && HasMedia(c) ::
            FieldOf(rec.data, files[i].fieldname) == Some(Some(Upload.StoredPath(uploadDir, files[i]))))
  {
    var rec := CreatePost(s, body, files, uploadDir, fault).reply.record;
    var c := KindOf(rec.data);
    var media := Upload.Intake(files, uploadDir).value;
    assert rec.data == BuildPayload(c, body, media);
    forall key | key in Columns(c)
      ensures FieldOf(rec.data, key) == Some(Get(body, key))
    {
      var k :| 0 <= k < |Columns(c)| && Columns(c)[k] == key;
    }
    forall key
      ensures FieldOf(rec.data, key).Some? <==> IsColumn(c, key)
    {
      FieldOfColumns(rec.data, key);
    }
    forall i | 0 <= i < |files| && HasMedia(c)
      ensures FieldOf(rec.data, files[i].fieldname) == Some(Some(Upload.StoredPath(uploadDir, files[i])))
    {
      assert Upload.IsMediaField(files[i].fieldname);
      assert Upload.Slot(media, files[i].fieldname) == Some(Upload.StoredPath(uploadDir, files[i]));
    }
  }

  /** The new Post's identifier is not used by any earlier Post. */
  lemma CreatedIdIsFresh(s: Store, body: Body, files: seq<Upload.IncomingFile>, uploadDir: string, fault: Fault)
    requires Valid(s)
    requires CreatePost(s, body, files, uploadDir, fault).reply.Created?
    ensures !HasPost(s, CreatePost(s, body, files, uploadDir, fault).reply.post.id)
  {
  }

  /** Appending a Post with the next identifier and a known category keeps a store valid. */
  lemma {:induction false} ValidAppendPost(s: Store, post: PostRow)
    requires Valid(s)
    requires post.id == s.nextPostId && ParseCategory(post.post_type).Some?
    ensures Valid(s.(posts := s.posts + [post], nextPostId := s.nextPostId + 1))
  {
    var t := s.(posts := s.posts + [post], nextPostId := s.nextPostId + 1);
    assert forall j | 0 <= j < |s.posts| :: t.posts[j] == s.posts[j];
    assert t.posts[|s.posts|] == post;
    forall i | 0 <= i < |t.records|
      ensures exists j | 0 <= j < |t.posts| ::
        t.posts[j].id == t.records[i].post_id && t.posts[j].post_type == CategoryName(KindOf(t.records[i].data))
    {
      var j :| 0 <= j < |s.posts| && s.posts[j].id == s.records[i].post_id
               && s.posts[j].post_type == CategoryName(KindOf(s.records[i].data));
      assert t.posts[j] == s.posts[j];
    }
  }

  /** Appending a record with the next identifier that points at a Post of its category keeps a store valid. */
  lemma {:induction false} ValidAppendRecord(s: Store, rec: Record, j: nat)
    requires Valid(s)
    requires rec.id == s.nextRecordId
    requires j < |s.posts| && s.posts[j].id == rec.post_id && s.posts[j].post_type == CategoryName(KindOf(rec.data))
    ensures Valid(s.(records := s.records + [rec], nextRecordId := s.nextRecordId + 1))
  {
    var t := s.(records := s.records + [rec], nextRecordId := s.nextRecordId + 1);
    assert forall i | 0 <= i < |s.records| :: t.records[i] == s.records[i];
    assert t.records[|s.records|] == rec;
  }

  /** Every outcome of a submission, the orphan-leaving one included, keeps the store valid. */
  lemma {:induction false} CreatePreservesValid(s: Store, body: Body, files: seq<Upload.IncomingFile>, uploadDir: string, fault: Fault)
    requires Valid(s)
    ensures Valid(CreatePost(s, body, files, uploadDir, fault).store)
  {
    var o := CreatePost(s, body, files, uploadDir, fault);
    if o.reply.Created? {
      var post := o.reply.post;
      var withPost := s.(posts := s.posts + [post], nextPostId := s.nextPostId + 1);
      ValidAppendPost(s, post);
      assert withPost.posts[|s.posts|] == post;
      ValidAppendRecord(withPost, o.reply.record, |s.posts|);
      assert o.store == withPost.(records := withPost.records + [o.reply.record], nextRecordId := withPost.nextRecordId + 1);
    } else if fault.RecordInsertFails? && Upload.Admissible(files) && Validate(body).Success? {
      var post := o.store.posts[|s.posts|];
      assert o.store.posts == s.posts + [post];
      ValidAppendPost(s, post);
      assert o.store == s.(posts := s.posts + [post], nextPostId := s.nextPostId + 1);
    }
  }
}
