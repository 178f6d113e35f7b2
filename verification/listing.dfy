/**
 * Listing: every Post joined with the records of its category table that
 * point at it, with stored media paths turned into public upload URLs.
 */
module Listing {
  import opened Wrappers
  import opened Rules
  import opened Records
  import Paths
  import Upload
  import Validation
  import Create

  /** A category record as listed: its identifier and columns, without `post_id`. */
  datatype View = View(id: nat, data: Payload)

  /** One listed Post: its id, `post_type` and status, and its category records. */
  datatype Entry = Entry(id: nat, post_type: string, status: Text, postType: seq<View>)

  /** The HTTP reply: 200 with the entries, 404 on an empty store, 500 on an unknown `post_type`. */
  datatype ListReply = Listed(entries: seq<Entry>) | NotFound(error: string) | ServerError(error: string)
  {
    function Status(): int
    {
      match this
      case Listed(_) => 200
      case NotFound(_) => 404
      case ServerError(_) => 500
    }
  }

  /** `<protocol>://<host>/uploads/`: where the static upload directory is served. */
  function UploadsPrefix(protocol: string, host: string): string
  {
    protocol + "://" + host + "/uploads/"
  }

  /**
   * A stored media column as served: a non-empty path becomes the public URL
   * of its file name; null and the empty string are left as they are.
   */
  function RewriteMedia(m: Text, protocol: string, host: string): (r: Text)
    ensures m.None? ==> r.None?
    ensures m == Some("") ==> r == m
    ensures m.Some? && m.value != "" ==>
      var prefix := UploadsPrefix(protocol, host);
      && r.Some?
      && |prefix| <= |r.value|
      && r.value[..|prefix|] == prefix
      && '/' !in r.value[|prefix|..]
      && |r.value| - |prefix| <= |m.value|
      && r.value[|prefix|..] == m.value[|m.value| - (|r.value| - |prefix|)..]
    ensures m.Some? && m.value != "" ==> r == Some(UploadsPrefix(protocol, host) + Paths.Basename(m.value))
  {
    if m.Some? && m.value != "" then
      var name := Paths.Basename(m.value);
      var url := UploadsPrefix(protocol, host) + name;
      assert url[|UploadsPrefix(protocol, host)|..] == name;
      Some(url)
    else m
  }

  /** A payload as served: its media columns rewritten, every other column unchanged. */
  function RewritePayload(p: Payload, protocol: string, host: string): (q: Payload)
    ensures KindOf(q) == KindOf(p)
    ensures forall key | key != "foto" && key != "video" :: FieldOf(q, key) == FieldOf(p, key)
    ensures FieldOf(p, "foto").Some? ==> FieldOf(q, "foto") == Some(RewriteMedia(FieldOf(p, "foto").value, protocol, host))
    ensures FieldOf(p, "video").Some? ==> FieldOf(q, "video") == Some(RewriteMedia(FieldOf(p, "video").value, protocol, host))
    ensures FieldOf(p, "foto").None? ==> FieldOf(q, "foto").None?
    ensures FieldOf(p, "video").None? ==> FieldOf(q, "video").None?
  {
    if p.AvisoData? then p
    else
      var q := WithMedia(p, RewriteMedia(p.foto, protocol, host), RewriteMedia(p.video, protocol, host));
      WithMediaColumns(p, q.foto, q.video);
      q
  }

  /** Whether record `r` is in category `c`'s table and points at Post `postId`. */
  predicate Matches(r: Record, postId: nat, c: Category)
  {
    r.post_id == postId && KindOf(r.data) == c
  }

  function ViewOf(r: Record, protocol: string, host: string): View
  {
    View(r.id, RewritePayload(r.data, protocol, host))
  }

  /**
   * The positions of the records of table `c` that point at `postId`: each
   * matching position exactly once, in increasing order.
   */
  function MatchIndices(records: seq<Record>, postId: nat, c: Category): (ix: seq<nat>)
    ensures forall k | 0 <= k < |ix| :: ix[k] < |records| && Matches(records[ix[k]], postId, c)
    ensures forall k, l | 0 <= k < l < |ix| :: ix[k] < ix[l]
    ensures forall i | 0 <= i < |records| && Matches(records[i], postId, c) :: i in ix
  {
    if |records| == 0 then []
    else
      var init := records[..|records| - 1];
      var prev := MatchIndices(init, postId, c);
      assert forall i | 0 <= i < |init| :: init[i] == records[i];
      if Matches(records[|records| - 1], postId, c) then prev + [|records| - 1] else prev
  }

  /**
   * The served records of table `c` whose `post_id` is `postId`, in table
   * order: one view per matching record, none for any other.
   */
  function Join(records: seq<Record>, postId: nat, c: Category, protocol: string, host: string): (vs: seq<View>)
    ensures |vs| <= |records|
    ensures forall v | v in vs :: exists i | 0 <= i < |records| ::
              Matches(records[i], postId, c) && v == ViewOf(records[i], protocol, host)
    ensures forall i | 0 <= i < |records| && Matches(records[i], postId, c) ::
              ViewOf(records[i], protocol, host) in vs
  {
    if |records| == 0 then []
    else
      var init := records[..|records| - 1];
      var last := records[|records| - 1];
      var prev := Join(init, postId, c, protocol, host);
      assert forall i | 0 <= i < |init| :: init[i] == records[i];
      if Matches(last, postId, c) then prev + [ViewOf(last, protocol, host)] else prev
  }

  /** `vs` serves, one by one, the records at positions `ix`. */
  predicate ServesAt(vs: seq<View>, ix: seq<nat>, records: seq<Record>, protocol: string, host: string)
  {
    && |vs| == |ix|
    && forall k | 0 <= k < |vs| :: ix[k] < |records| && vs[k] == ViewOf(records[ix[k]], protocol, host)
  }

  /** Appending a record keeps earlier positions served, and serves it at its own position. */
  lemma {:induction false} ServesAtAppend(vs: seq<View>, ix: seq<nat>, init: seq<Record>, last: Record, protocol: string, host: string)
    requires ServesAt(vs, ix, init, protocol, host)
    ensures ServesAt(vs, ix, init + [last], protocol, host)
    ensures ServesAt(vs + [ViewOf(last, protocol, host)], ix + [|init|], init + [last], protocol, host)
  {
    var records := init + [last];
    forall k | 0 <= k < |vs|
      ensures records[ix[k]] == init[ix[k]]
    {
    }
    assert records[|init|] == last;
  }

  /**
   * Join serves the records `MatchIndices` selects, each exactly once and in
   * table order.
   */
  lemma {:induction false} JoinSelects(records: seq<Record>, postId: nat, c: Category, protocol: string, host: string)
    ensures ServesAt(Join(records, postId, c, protocol, host), MatchIndices(records, postId, c), records, protocol, host)
  {
    if |records| > 0 {
      var init := records[..|records| - 1];
      var last := records[|records| - 1];
      assert records == init + [last];
      JoinSelects(init, postId, c, protocol, host);
      ServesAtAppend(Join(init, postId, c, protocol, host), MatchIndices(init, postId, c), init, last, protocol, host);
    }
  }

  /** `e` lists `post`: its id, `post_type` and status, and the records of its category that point at it. */
  predicate ListsPost(e: Entry, post: PostRow, records: seq<Record>, protocol: string, host: string)
  {
    && e.id == post.id
    && e.post_type == post.post_type
    && e.status == post.status
    && ParseCategory(post.post_type).Some?
    && e.postType == Join(records, post.id, ParseCategory(post.post_type).value, protocol, host)
  }

  /** Listing one more Post extends a correct listing by its entry. */
  lemma {:induction false} EntriesStep(init: seq<PostRow>, post: PostRow, es: seq<Entry>, entry: Entry,
                                       records: seq<Record>, protocol: string, host: string)
    requires |es| == |init|
    requires forall i | 0 <= i < |init| :: ListsPost(es[i], init[i], records, protocol, host)
    requires ListsPost(entry, post, records, protocol, host)
    ensures forall i | 0 <= i < |init| + 1 :: ListsPost((es + [entry])[i], (init + [post])[i], records, protocol, host)
  {
    forall i | 0 <= i < |init| + 1
      ensures ListsPost((es + [entry])[i], (init + [post])[i], records, protocol, host)
    {
      if i < |init| {
        assert (es + [entry])[i] == es[i] && (init + [post])[i] == init[i];
      } else {
        assert (es + [entry])[i] == entry && (init + [post])[i] == post;
      }
    }
  }

  /** The entries of `posts`, or an error at the first Post whose `post_type` names no category. */
  function Entries(posts: seq<PostRow>, records: seq<Record>, protocol: string, host: string): (r: Result<seq<Entry>, string>)
    ensures r.Failure? <==> exists i | 0 <= i < |posts| :: ParseCategory(posts[i].post_type).None?
    ensures r.Success? ==>
      && |r.value| == |posts|
      && forall i | 0 <= i < |posts| :: ListsPost(r.value[i], posts[i], records, protocol, host)
  {
    if |posts| == 0 then Success([])
    else
      var init := posts[..|posts| - 1];
      var post := posts[|posts| - 1];
      assert posts == init + [post];
      match Entries(init, records, protocol, host)
      case Failure(e) =>
        var i :| 0 <= i < |init| && ParseCategory(init[i].post_type).None?;
        assert ParseCategory(posts[i].post_type).None?;
        Failure(e)
      case Success(es) =>
        match ParseCategory(post.post_type)
        case None =>
          assert ParseCategory(posts[|posts| - 1].post_type).None?;
          Failure("Invalid post type")
        case Some(c) =>
          assert forall i | 0 <= i < |posts| :: ParseCategory(posts[i].post_type).Some? by {
            forall i | 0 <= i < |posts|
              ensures ParseCategory(posts[i].post_type).Some?
            {
              if i < |init| { assert ListsPost(es[i], init[i], records, protocol, host); }
            }
          }
          var entry := Entry(post.id, post.post_type, post.status, Join(records, post.id, c, protocol, host));
          EntriesStep(init, post, es, entry, records, protocol, host);
          Success(es + [entry])
  }

  /** Lists every Post of the store with its category records. */
  function ListAll(s: Store, protocol: string, host: string): (r: ListReply)
    ensures r.NotFound? <==> |s.posts| == 0
    ensures r.NotFound? ==> r.error == "Posts not found"
    ensures r.ServerError? <==> |s.posts| > 0 && exists i | 0 <= i < |s.posts| :: ParseCategory(s.posts[i].post_type).None?
    ensures r.ServerError? ==> r.error == "Internal server error"
    ensures r.Status() == 200 <==> r.Listed?
    ensures r.Listed? ==>
      && |r.entries| == |s.posts|
      && forall i | 0 <= i < |s.posts| :: ListsPost(r.entries[i], s.posts[i], s.records, protocol, host)
  {
    if |s.posts| == 0 then NotFound("Posts not found")
    else
      match Entries(s.posts, s.records, protocol, host)
      case Failure(_) => ServerError("Internal server error")
      case Success(es) => Listed(es)
  }

  /** A record appended to a table joins exactly the Post it points at. */
  lemma {:induction false} JoinAppend(records: seq<Record>, r: Record, postId: nat, c: Category, protocol: string, host: string)
    ensures Join(records + [r], postId, c, protocol, host)
            == Join(records, postId, c, protocol, host) + (if Matches(r, postId, c) then [ViewOf(r, protocol, host)] else [])
  {
    assert (records + [r])[..|records|] == records;
  }

  /** A Post no record points at lists no category record. */
  lemma {:induction false} JoinNone(records: seq<Record>, postId: nat, c: Category, protocol: string, host: string)
    requires forall i | 0 <= i < |records| :: records[i].post_id != postId
    ensures Join(records, postId, c, protocol, host) == []
  {
    if |records| > 0 {
      var init := records[..|records| - 1];
      assert records == init + [records[|records| - 1]];
      JoinNone(init, postId, c, protocol, host);
      JoinAppend(init, records[|records| - 1], postId, c, protocol, host);
    }
  }

  /** A store the controller built never makes the listing fail with 500. */
  lemma ValidStoreLists(s: Store, protocol: string, host: string)
    requires Valid(s)
    ensures ListAll(s, protocol, host).Listed? <==> |s.posts| > 0
  {
  }

  /** In a valid store every record points below the next Post identifier. */
  lemma RecordsPointBelowNext(s: Store)
    requires Valid(s)
    ensures forall i | 0 <= i < |s.records| :: s.records[i].post_id < s.nextPostId
  {
    forall i | 0 <= i < |s.records|
      ensures s.records[i].post_id < s.nextPostId
    {
      var j :| 0 <= j < |s.posts| && s.posts[j].id == s.records[i].post_id
               && s.posts[j].post_type == CategoryName(KindOf(s.records[i].data));
    }
  }

  /** The conditions under which a store grows by one fresh Post and one record of it. */
  predicate AppendsPost(s: Store, t: Store, post: PostRow, rec: Record)
  {
    && t.posts == s.posts + [post] && t.records == s.records + [rec]
    && post.id == s.nextPostId && rec.post_id == post.id
    && ParseCategory(post.post_type) == Some(KindOf(rec.data))
  }

  /** After the append the listing succeeds and ends with the new Post and its one record. */
  lemma {:induction false} ListAfterAppendLast(s: Store, t: Store, post: PostRow, rec: Record, protocol: string, host: string)
    requires Valid(s) && AppendsPost(s, t, post, rec)
    ensures var l := ListAll(t, protocol, host);
      && l.Listed?
      && |l.entries| == |s.posts| + 1
      && l.entries[|s.posts|] == Entry(post.id, post.post_type, post.status, [ViewOf(rec, protocol, host)])
  {
    RecordsPointBelowNext(s);
    assert t.posts[|s.posts|] == post;
    assert forall i | 0 <= i < |s.posts| :: t.posts[i] == s.posts[i];
    var c := KindOf(rec.data);
    JoinAppend(s.records, rec, post.id, c, protocol, host);
    JoinNone(s.records, post.id, c, protocol, host);
  }

  /** After the append every earlier Post is listed exactly as before. */
  lemma {:induction false} ListAfterAppendPrefix(s: Store, t: Store, post: PostRow, rec: Record, protocol: string, host: string)
    requires Valid(s) && AppendsPost(s, t, post, rec) && |s.posts| > 0
    requires ListAll(t, protocol, host).Listed?
    ensures ListAll(t, protocol, host).entries[..|s.posts|] == ListAll(s, protocol, host).entries
  {
    var l := ListAll(t, protocol, host);
    var before := ListAll(s, protocol, host);
    assert before.Listed?;
    forall i | 0 <= i < |s.posts|
      ensures l.entries[i] == before.entries[i]
    {
      assert t.posts[i] == s.posts[i];
      var ci := ParseCategory(s.posts[i].post_type).value;
      JoinAppend(s.records, rec, s.posts[i].id, ci, protocol, host);
    }
  }

  /**
   * Creating a post and then listing: the earlier entries are listed as
   * before, and the new Post comes last with its one new category record.
   */
  lemma {:induction false} CreateThenList(s: Store, body: Validation.Body, files: seq<Upload.IncomingFile>, uploadDir: string,
                                          fault: Create.Fault, protocol: string, host: string)
    requires Valid(s)
    requires Create.CreatePost(s, body, files, uploadDir, fault).reply.Created?
    ensures var o := Create.CreatePost(s, body, files, uploadDir, fault);
      var l := ListAll(o.store, protocol, host);
      && l.Listed?
      && |l.entries| == |s.posts| + 1
      && l.entries[|s.posts|]
         == Entry(o.reply.post.id, o.reply.post.post_type, o.reply.post.status, [ViewOf(o.reply.record, protocol, host)])
      && (|s.posts| > 0 ==> l.entries[..|s.posts|] == ListAll(s, protocol, host).entries)
  {
    var o := Create.CreatePost(s, body, files, uploadDir, fault);
    assert AppendsPost(s, o.store, o.reply.post, o.reply.record);
    ListAfterAppendLast(s, o.store, o.reply.post, o.reply.record, protocol, host);
    if |s.posts| > 0 {
      ListAfterAppendPrefix(s, o.store, o.reply.post, o.reply.record, protocol, host);
    }
  }

  /** A stored media path `dir/name` is served as the upload URL of `name`. */
  lemma ServedMedia(p: Payload, key: string, uploadDir: string, name: string, protocol: string, host: string)
    requires key == "foto" || key == "video"
    requires '/' !in name
    requires FieldOf(p, key) == Some(Some(uploadDir + "/" + name))
    ensures FieldOf(RewritePayload(p, protocol, host), key) == Some(Some(UploadsPrefix(protocol, host) + name))
  {
    Paths.BasenameOfJoin(uploadDir, name);
  }

  /**
   * The record a client created is served with every text column exactly
   * as submitted (by CreateThenList it is the one record listed for the
   * new Post).
   */
  lemma {:induction false} ServedAsSubmitted(s: Store, body: Validation.Body, files: seq<Upload.IncomingFile>, uploadDir: string,
                                             fault: Create.Fault, protocol: string, host: string)
    requires Create.CreatePost(s, body, files, uploadDir, fault).reply.Created?
    ensures var rec := Create.CreatePost(s, body, files, uploadDir, fault).reply.record;
      var v := ViewOf(rec, protocol, host);
      && v.id == rec.id
      && KindOf(v.data) == KindOf(rec.data)
      && forall key | key in Columns(KindOf(rec.data)) :: FieldOf(v.data, key) == Some(Validation.Get(body, key))
  {
    Create.CreatedRecordContents(s, body, files, uploadDir, fault);
    var rec := Create.CreatePost(s, body, files, uploadDir, fault).reply.record;
    MediaNotText(KindOf(rec.data));
  }

  /**
   * Each media part uploaded with a post of a media-carrying category is
   * served at `<protocol>://<host>/uploads/<generated file name>`.
   */
  lemma {:induction false} ServedMediaUrls(s: Store, body: Validation.Body, files: seq<Upload.IncomingFile>, uploadDir: string,
                                           fault: Create.Fault, protocol: string, host: string)
    requires Create.CreatePost(s, body, files, uploadDir, fault).reply.Created?
    ensures var rec := Create.CreatePost(s, body, files, uploadDir, fault).reply.record;
      var v := ViewOf(rec, protocol, host);
      forall i | 0 <= i < |files| && HasMedia(KindOf(rec.data)) ::
        FieldOf(v.data, files[i].fieldname)
        == Some(Some(UploadsPrefix(protocol, host)
                     + Upload.StoredFilename(files[i].fieldname, files[i].now, files[i].originalname).value))
  {
    Create.CreatedRecordContents(s, body, files, uploadDir, fault);
    var p := Create.CreatePost(s, body, files, uploadDir, fault).reply.record.data;
    forall i | 0 <= i < |files| && HasMedia(KindOf(p))
      ensures FieldOf(RewritePayload(p, protocol, host), files[i].fieldname)
              == Some(Some(UploadsPrefix(protocol, host)
                           + Upload.StoredFilename(files[i].fieldname, files[i].now, files[i].originalname).value))
    {
      var f := files[i];
      assert Upload.IsMediaField(f.fieldname);
      var name := Upload.StoredFilename(f.fieldname, f.now, f.originalname).value;
      assert Upload.StoredPath(uploadDir, f) == uploadDir + "/" + name;
      ServedMedia(p, f.fieldname, uploadDir, name, protocol, host);
    }
  }
}
