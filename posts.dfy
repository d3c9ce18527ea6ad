/** The business rules of app/routers/posts.py that do not touch the store: the errors
    and the `setattr` loop of `update_post`. */
module Posts {
  import opened Common
  import Schemas
  import Models

  const OWNER_NOT_FOUND: Error := HttpError(404, "Owner User not found")
  const POST_NOT_FOUND: Error := HttpError(404, "Post not found")

  /** `for key, value in post.dict().items(): setattr(db_post, key, value)`. */
  method SetPostAttrs(row: Models.Post, items: seq<Schemas.PostAttr>) returns (r: Models.Post)
    requires Schemas.DistinctPostColumns(items)
    ensures r.postNo == row.postNo && r.regDate == row.regDate && r.userNo == row.userNo
    ensures forall a :: a in items ==> Models.GetPost(r, a.Column()) == a
    ensures forall c :: !Schemas.WritesPost(items, c) ==> Models.GetPost(r, c) == Models.GetPost(row, c)
  {
    r := row;
    for k := 0 to |items|
      invariant r.postNo == row.postNo && r.regDate == row.regDate && r.userNo == row.userNo
      invariant forall j :: 0 <= j < k ==> Models.GetPost(r, items[j].Column()) == items[j]
      invariant forall c :: !Schemas.WritesPost(items[..k], c) ==> Models.GetPost(r, c) == Models.GetPost(row, c)
    {
      r := Models.SetPostAttr(r, items[k]);
      assert forall c :: Schemas.WritesPost(items[..k], c) ==> Schemas.WritesPost(items[..k + 1], c);
    }
    assert items[..|items|] == items;
  }

  /** Once both pairs of `post.dict()` are written, exactly `title` and `content` changed. */
  lemma SetAllPostAttrs(row: Models.Post, req: Schemas.PostBase, r: Models.Post)
    requires r.postNo == row.postNo && r.regDate == row.regDate && r.userNo == row.userNo
    requires forall a :: a in req.Items() ==> Models.GetPost(r, a.Column()) == a
    ensures r == Models.Rewritten(row, req)
  {
    var want := Models.Rewritten(row, req);
    assert Schemas.Title(req.title) in req.Items() && Schemas.Content(req.content) in req.Items();
    assert Models.GetPost(r, Schemas.TitleColumn) == Schemas.Title(req.title);
    assert Models.GetPost(r, Schemas.ContentColumn) == Schemas.Content(req.content);
    forall c ensures Models.GetPost(r, c) == Models.GetPost(want, c) {
    }
    Models.PostDeterminedByColumns(r, want);
  }
}
