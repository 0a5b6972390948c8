/**
 * The comment list of a post (src/components/CommentList/CommentList.jsx):
 * the flat list the server returns is organised into top-level comments,
 * each carrying its replies (one level of nesting), both ordered oldest
 * first, and the header shows the total number of comments on display.
 */
module CommentList {
  import opened Common
  import Seqs
  import StableSort

  /** A comment as the server sends it; `createdAt` is a timestamp in milliseconds. */
  datatype Comment = Comment(
    id: int,
    author: string,
    content: string,
    createdAt: int,
    isEdited: bool,
    parentCommentId: Option<int>)

  /** `if (comment.parentCommentId)`: a missing id and the id 0 are both falsy. */
  predicate IsReply(c: Comment) {
    c.parentCommentId.Some? && c.parentCommentId.value != 0
  }

  predicate RepliesTo(c: Comment, id: int) {
    IsReply(c) && c.parentCommentId.value == id
  }

  function CreatedAt(c: Comment): int {
    c.createdAt
  }

  /** A top-level comment with the replies attached to it. */
  datatype Node = Node(comment: Comment, replies: seq<Comment>)

  function Head(n: Node): Comment {
    n.comment
  }

  function NodeCreatedAt(n: Node): int {
    n.comment.createdAt
  }

  function ReplyCount(n: Node): int {
    |n.replies|
  }

  /** The comments that are not replies, in server order. */
  function TopLevel(cs: seq<Comment>): seq<Comment> {
    Seqs.Filter(cs, (c: Comment) => !IsReply(c))
  }

  /** The replies to comment `id`, in server order (the per-parent bucket). */
  function RepliesOf(cs: seq<Comment>, id: int): seq<Comment> {
    Seqs.Filter(cs, (c: Comment) => RepliesTo(c, id))
  }

  /** The node for `parent`: its bucket of replies sorted oldest first. */
  function NodeFor(cs: seq<Comment>, parent: Comment): Node {
    Node(parent, StableSort.Sort(RepliesOf(cs, parent.id), CreatedAt))
  }

  /**
   * A node's replies are exactly the replies to its comment, oldest first,
   * same-time replies in server order.
   */
  lemma NodeReplies(cs: seq<Comment>, parent: Comment)
    ensures StableSort.SortedBy(NodeFor(cs, parent).replies, CreatedAt)
    ensures forall c :: c in NodeFor(cs, parent).replies <==> c in cs && RepliesTo(c, parent.id)
    ensures forall k :: StableSort.WithKey(NodeFor(cs, parent).replies, CreatedAt, k)
                        == StableSort.WithKey(RepliesOf(cs, parent.id), CreatedAt, k)
  {
    var bucket := RepliesOf(cs, parent.id);
    var sorted := StableSort.Sort(bucket, CreatedAt);
    assert NodeFor(cs, parent).replies == sorted;
    StableSort.SortSameElements(bucket, CreatedAt);
    forall c ensures c in sorted <==> c in cs && RepliesTo(c, parent.id) {
      assert c in sorted <==> c in bucket;
    }
  }

  function Attach(parents: seq<Comment>, cs: seq<Comment>): seq<Node> {
    StableSort.MapSeq(parents, (p: Comment) => NodeFor(cs, p))
  }

  lemma AttachHeads(parents: seq<Comment>, cs: seq<Comment>)
    ensures StableSort.MapSeq(Attach(parents, cs), Head) == parents
  {
  }

  lemma AttachMember(parents: seq<Comment>, cs: seq<Comment>, n: Node)
    requires n in Attach(parents, cs)
    ensures n.comment in parents && n == NodeFor(cs, n.comment)
  {
    var a := Attach(parents, cs);
    var j :| 0 <= j < |a| && a[j] == n;
    assert a[j] == NodeFor(cs, parents[j]);
  }

  lemma SortedAttachMembers(parents: seq<Comment>, cs: seq<Comment>)
    ensures forall i :: 0 <= i < |StableSort.Sort(Attach(parents, cs), NodeCreatedAt)| ==>
      var n := StableSort.Sort(Attach(parents, cs), NodeCreatedAt)[i];
      n.comment in parents && n == NodeFor(cs, n.comment)
  {
    var a := Attach(parents, cs);
    var s := StableSort.Sort(a, NodeCreatedAt);
    StableSort.SortSameElements(a, NodeCreatedAt);
    forall i | 0 <= i < |s| ensures s[i].comment in parents && s[i] == NodeFor(cs, s[i].comment) {
      assert s[i] in s;
      AttachMember(parents, cs, s[i]);
    }
  }

  /**
   * `organizeComments`: one node per top-level comment, ordered by creation
   * time, each carrying the replies that answer it.
   */
  function OrganizeComments(cs: seq<Comment>): (nodes: seq<Node>)
    ensures |nodes| == |TopLevel(cs)|
    ensures StableSort.SortedBy(nodes, NodeCreatedAt)
    ensures forall i :: 0 <= i < |nodes| ==>
      nodes[i].comment in TopLevel(cs) && nodes[i] == NodeFor(cs, nodes[i].comment)
  {
    SortedAttachMembers(TopLevel(cs), cs);
    StableSort.Sort(Attach(TopLevel(cs), cs), NodeCreatedAt)
  }

  /**
   * The top-level comments appear in exactly the order a stable sort by
   * creation time puts them: same-time comments keep server order.
   */
  lemma OrganizedHeads(cs: seq<Comment>)
    ensures StableSort.MapSeq(OrganizeComments(cs), Head) == StableSort.Sort(TopLevel(cs), CreatedAt)
  {
    var parents := TopLevel(cs);
    var attached := Attach(parents, cs);
    var nodes := OrganizeComments(cs);
    var heads := StableSort.MapSeq(nodes, Head);
    AttachHeads(parents, cs);
    forall k ensures StableSort.WithKey(heads, CreatedAt, k) == StableSort.WithKey(parents, CreatedAt, k) {
      StableSort.WithKeyMapped(nodes, Head, NodeCreatedAt, CreatedAt, k);
      StableSort.WithKeyMapped(attached, Head, NodeCreatedAt, CreatedAt, k);
    }
    StableSort.SortIsTheStableSort(parents, heads, CreatedAt);
  }

  /** The ids of the given comments. */
  function Ids(ps: seq<Comment>): set<int> {
    set i | 0 <= i < |ps| :: ps[i].id
  }

  /** A reply whose parent is not among the top-level comments. */
  predicate IsOrphan(cs: seq<Comment>, c: Comment) {
    IsReply(c) && c.parentCommentId.value !in Ids(TopLevel(cs))
  }

  lemma HeadsAreTopLevel(cs: seq<Comment>)
    ensures forall c :: c in StableSort.MapSeq(OrganizeComments(cs), Head) <==> c in TopLevel(cs)
  {
    OrganizedHeads(cs);
    StableSort.SortSameElements(TopLevel(cs), CreatedAt);
  }

  /** Every top-level comment heads a node. */
  lemma TopLevelShown(cs: seq<Comment>, c: Comment)
    requires c in cs && !IsReply(c)
    ensures exists i :: 0 <= i < |OrganizeComments(cs)| && OrganizeComments(cs)[i].comment == c
  {
    HeadsAreTopLevel(cs);
    HeadOfSomeNode(OrganizeComments(cs), c);
  }

  lemma HeadOfSomeNode(nodes: seq<Node>, c: Comment)
    requires c in StableSort.MapSeq(nodes, Head)
    ensures exists i :: 0 <= i < |nodes| && nodes[i].comment == c
  {
  }

  /** Every reply to a top-level comment sits in that comment's node. */
  lemma ReplyShown(cs: seq<Comment>, c: Comment)
    requires c in cs && IsReply(c) && !IsOrphan(cs, c)
    ensures exists i :: 0 <= i < |OrganizeComments(cs)| && c in OrganizeComments(cs)[i].replies
  {
    var parents := TopLevel(cs);
    var j :| 0 <= j < |parents| && parents[j].id == c.parentCommentId.value;
    assert parents[j] in cs;
    TopLevelShown(cs, parents[j]);
    var nodes := OrganizeComments(cs);
    var i :| 0 <= i < |nodes| && nodes[i].comment == parents[j];
    assert nodes[i] == NodeFor(cs, parents[j]);
    NodeReplies(cs, parents[j]);
    assert RepliesTo(c, parents[j].id);
    assert c in NodeFor(cs, parents[j]).replies;
  }

  /** A reply to a comment that is not shown is not shown either. */
  lemma OrphansDropped(cs: seq<Comment>, c: Comment)
    requires IsOrphan(cs, c)
    ensures forall i :: 0 <= i < |OrganizeComments(cs)| ==>
      OrganizeComments(cs)[i].comment != c && c !in OrganizeComments(cs)[i].replies
  {
    var nodes := OrganizeComments(cs);
    var parents := TopLevel(cs);
    forall i | 0 <= i < |nodes| ensures c !in nodes[i].replies {
      var j :| 0 <= j < |parents| && parents[j] == nodes[i].comment;
      assert nodes[i].comment.id in Ids(parents);
      NodeReplies(cs, nodes[i].comment);
    }
  }

  /** The header count: top-level comments plus all their replies. */
  function TotalCount(nodes: seq<Node>): int {
    |nodes| + StableSort.SumBy(nodes, ReplyCount)
  }

  predicate DistinctIds(ps: seq<Comment>) {
    forall i, j :: 0 <= i < j < |ps| ==> ps[i].id != ps[j].id
  }

  predicate AttachedTo(c: Comment, ids: set<int>) {
    IsReply(c) && c.parentCommentId.value in ids
  }

  /** Over parents with distinct ids, the buckets partition the replies to them. */
  lemma {:induction false} BucketSizes(cs: seq<Comment>, ps: seq<Comment>)
    requires DistinctIds(ps)
    ensures StableSort.SumBy(ps, (p: Comment) => |RepliesOf(cs, p.id)|)
      == |Seqs.Filter(cs, (c: Comment) => AttachedTo(c, Ids(ps)))|
    decreases |ps|
  {
    var size := (p: Comment) => |RepliesOf(cs, p.id)|;
    if |ps| == 0 {
      assert Ids(ps) == {};
      Seqs.FilterNone(cs, (c: Comment) => AttachedTo(c, Ids(ps)));
    } else {
      var init, p := ps[..|ps| - 1], ps[|ps| - 1];
      BucketSizes(cs, init);
      assert Ids(ps) == Ids(init) + {p.id} by {
        assert forall i :: 0 <= i < |init| ==> init[i] == ps[i];
      }
      assert p.id !in Ids(init);
      Seqs.FilterCountSplit(cs,
        (c: Comment) => AttachedTo(c, Ids(ps)),
        (c: Comment) => AttachedTo(c, Ids(init)),
        (c: Comment) => RepliesTo(c, p.id));
    }
  }

  lemma ShownReplySum(cs: seq<Comment>)
    ensures StableSort.SumBy(OrganizeComments(cs), ReplyCount)
      == StableSort.SumBy(TopLevel(cs), (p: Comment) => |RepliesOf(cs, p.id)|)
  {
    var parents := TopLevel(cs);
    StableSort.SortKeepsSum(Attach(parents, cs), NodeCreatedAt, ReplyCount);
    StableSort.SumByMapped(parents, (p: Comment) => NodeFor(cs, p), ReplyCount, (p: Comment) => |RepliesOf(cs, p.id)|);
  }

  /** Each reply is attached to a top-level comment or is an orphan. */
  lemma ReplyPartition(cs: seq<Comment>)
    ensures |Seqs.Filter(cs, (c: Comment) => !IsReply(c))| + |Seqs.Filter(cs, (c: Comment) => AttachedTo(c, Ids(TopLevel(cs))))|
      + |Seqs.Filter(cs, (c: Comment) => IsOrphan(cs, c))| == |cs|
  {
    var ids := Ids(TopLevel(cs));
    Seqs.FilterCountComplement(cs, (c: Comment) => !IsReply(c), (c: Comment) => IsReply(c));
    Seqs.FilterCountSplit(cs, (c: Comment) => IsReply(c),
      (c: Comment) => AttachedTo(c, ids),
      (c: Comment) => IsOrphan(cs, c));
  }

  /**
   * With distinct top-level ids, the header counts every comment of the
   * list except the replies to comments that are not there.
   */
  lemma TotalCountIsShownComments(cs: seq<Comment>)
    requires DistinctIds(TopLevel(cs))
    ensures TotalCount(OrganizeComments(cs)) == |cs| - |Seqs.Filter(cs, (c: Comment) => IsOrphan(cs, c))|
  {
    ShownReplySum(cs);
    BucketSizes(cs, TopLevel(cs));
    ReplyPartition(cs);
  }
}
