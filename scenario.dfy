/** A session against a fresh, empty table, run through the model. */
module Scenario {
  import opened Options
  import opened Strconv
  import opened Http
  import opened Posts
  import opened Gitter

  /** The table after posting "hello" and then "world" to an empty one. */
  const Stored: seq<Row> := [Row(1, 1, "hello", 1), Row(2, 2, "world", 2)]

  /** With the counter at 2, the front page lists both posts newest first. */
  lemma HelloWorldFrontPage()
    ensures Project(FeedRows(Stored, 2, [])) == [Post("world", 2), Post("hello", 1)]
  {
    assert PageParameter([]) == 0;
    FirstPageIsLatest(Stored, 2, []);
    assert LatestFirst(Stored, PostsPerPage) == [Stored[1], Stored[0]] by {
      assert Stored[..1] == [Stored[0]];
    }
  }

  /** Page 1 has bound 2 - 10 = -8, below every stored page, and lists nothing. */
  lemma HelloWorldPageOne()
    ensures Project(FeedRows(Stored, 2, [("page", "1")])) == []
  {
    assert FormatInt(1) == "1";
    PageParameterReadsPage([("page", "1")], 1);
    assert FeedBound(2, 1) == -8;
    assert Eligible(Stored, -8) == [] by {
      assert Stored[1..][1..] == [];
    }
  }

  /** Two posts, "hello" then "world", receive pages 1 and 2; the front page
      then shows them newest first and page 1 shows nothing. */
  method HelloWorld() returns (front: Response, back: Response)
    ensures front == Rendered([Post("world", 2), Post("hello", 1)])
    ensures back == Rendered([])
  {
    var table := new Table([]);
    var made := MakeServer(table, InitSucceeds);
    var server := made.value;
    var _ := server.SubmitPost(table, Request(MethodPost, [], Fields([("message", "hello")])), 1, 1, SubmitSucceeds);
    var _ := server.SubmitPost(table, Request(MethodPost, [], Fields([("message", "world")])), 2, 2, SubmitSucceeds);
    assert server.counter == 2 && table.rows == Stored;
    HelloWorldFrontPage();
    HelloWorldPageOne();
    front := server.GetIndex(table, Request(MethodGet, [], Fields([])), IndexSucceeds);
    back := server.GetIndex(table, Request(MethodGet, [("page", "1")], Fields([])), IndexSucceeds);
  }
}
