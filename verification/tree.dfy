/**
 * The content tree: the node dictionaries the scraper emits (`to_node`),
 * the topic-node class `Node` whose children are an ordered dictionary keyed
 * by `source_id` (`add_node`), and `Category.add_topic`.
 */
module Tree {
  import opened Wrappers
  import OrderedMap

  /** `AUTHOR`, the author recorded when a node has none of its own. */
  const DefaultAuthor := "Hsoub Academy"

  /** The `lang` every node is built with by default. */
  const DefaultLanguage := "ar"

  /** The `content_kinds` a node or file can have. */
  datatype Kind = TopicKind | Html5Kind | DocumentKind | VideoKind

  /** An entry of a node's `files` list: a file on disk, or a subtitle track of a video. */
  datatype FileRef =
    | PathFile(fileType: Kind, path: string)
    | SubtitleFile(youtubeId: string, language: string)

  /** The dictionary `to_node` returns (the license, a constant, is left out). */
  datatype TreeNode = TreeNode(
    kind: Kind,
    sourceId: string,
    title: string,
    description: Option<string>,
    language: string,
    thumbnail: Option<string>,
    author: string,
    files: seq<FileRef>,
    children: seq<TreeNode>)

  /** The children dictionary `tree_nodes`, keyed by each child's `source_id`. */
  type Children = OrderedMap.Assoc<string, TreeNode>

  /** An object of class `Node` (and of `Category`, `LessonTopic`, ... which extend it). */
  datatype Node = Node(
    title: string,
    sourceId: string,
    lang: string,
    description: Option<string>,
    thumbnail: Option<string>,
    author: Option<string>,
    treeNodes: Children)

  /** `Node(title, source_id)`: no description, thumbnail, author or children yet. */
  function NewNode(title: string, sourceId: string): Node {
    Node(title, sourceId, DefaultLanguage, None, None, None, [])
  }

  /** Keys are distinct and each child is filed under its own `source_id`. */
  predicate WellKeyed(c: Children) {
    && OrderedMap.DistinctKeys(c)
    && forall i :: 0 <= i < |c| ==> c[i].1.sourceId == c[i].0
  }

  /** No two nodes of `s` share a `source_id`. */
  predicate DistinctSourceIds(s: seq<TreeNode>) {
    forall i, j :: 0 <= i < j < |s| ==> s[i].sourceId != s[j].sourceId
  }

  /**
   * `add_node`: `produced` is what the object's `to_node()` returned. `None`
   * is dropped; a node is stored under its `source_id`, replacing in place
   * a child with the same `source_id` or else going to the end.
   */
  function AddNode(n: Node, produced: Option<TreeNode>): (r: Node)
    ensures produced.None? ==> r == n
    ensures r == n.(treeNodes := r.treeNodes)
    ensures produced.Some? && produced.value.sourceId !in OrderedMap.Keys(n.treeNodes) ==>
      r.treeNodes == n.treeNodes + [(produced.value.sourceId, produced.value)]
    ensures produced.Some? && produced.value.sourceId in OrderedMap.Keys(n.treeNodes) ==>
      var i := OrderedMap.IndexOf(n.treeNodes, produced.value.sourceId);
      r.treeNodes == n.treeNodes[i := (produced.value.sourceId, produced.value)]
    ensures WellKeyed(n.treeNodes) ==> WellKeyed(r.treeNodes)
  {
    match produced
    case None => n
    case Some(node) =>
      n.(treeNodes := OrderedMap.Put(n.treeNodes, node.sourceId, node))
  }

  /**
   * `Node.to_node`: a topic node whose children are the stored nodes in
   * insertion order, so no two children share a `source_id`.
   */
  function ToNode(n: Node): (r: TreeNode)
    ensures r.kind == TopicKind && r.sourceId == n.sourceId && r.title == n.title
    ensures r.author == n.author.GetOr(DefaultAuthor) && r.files == []
    ensures |r.children| == |n.treeNodes|
    ensures forall i :: 0 <= i < |r.children| ==> r.children[i] == n.treeNodes[i].1
    ensures WellKeyed(n.treeNodes) ==> DistinctSourceIds(r.children)
  {
    TreeNode(TopicKind, n.sourceId, n.title, n.description, n.lang, n.thumbnail,
      n.author.GetOr(DefaultAuthor), [], OrderedMap.Values(n.treeNodes))
  }

  /**
   * Adding a sequence of produced nodes one by one (the loops of
   * `Category.download` and the topic downloads) keeps the children
   * well keyed, whatever the order and however often a `source_id` recurs.
   */
  lemma {:induction false} AddNodesWellKeyed(n: Node, produced: seq<Option<TreeNode>>)
    requires WellKeyed(n.treeNodes)
    ensures WellKeyed(AddNodes(n, produced).treeNodes)
    decreases |produced|
  {
    if |produced| > 0 {
      AddNodesWellKeyed(AddNode(n, produced[0]), produced[1..]);
    }
  }

  function AddNodes(n: Node, produced: seq<Option<TreeNode>>): Node
    decreases |produced|
  {
    if |produced| == 0 then n else AddNodes(AddNode(n, produced[0]), produced[1..])
  }

  /** Re-adding a node whose `source_id` is already a child leaves the number of children unchanged. */
  lemma ReAddKeepsCount(n: Node, node: TreeNode)
    requires WellKeyed(n.treeNodes)
    requires node.sourceId in OrderedMap.Keys(n.treeNodes)
    ensures |AddNode(n, Some(node)).treeNodes| == |n.treeNodes|
    ensures OrderedMap.Keys(AddNode(n, Some(node)).treeNodes) == OrderedMap.Keys(n.treeNodes)
  {
    OrderedMap.PutGet(n.treeNodes, node.sourceId, node);
  }

  /** The three listing kinds a topic can have. */
  datatype TopicVariant = LessonTopic | BookTopic | QuestionTopic

  datatype Topic = Topic(variant: TopicVariant, node: Node)

  /** A `Category`: its own node and the topics `add_topic` collected. */
  datatype Category = Category(node: Node, topics: seq<Topic>)

  /** `Category(name, name)`. */
  function NewCategory(title: string, sourceId: string): Category {
    Category(NewNode(title, sourceId), [])
  }

  const LessonsName := "Lessons and Articles"
  const BooksName := "Books and Resources"

  /**
   * `add_topic`: a placeholder link `"#"` adds nothing; any other link adds
   * exactly one topic at the end, a lesson topic for the lessons category, a
   * book topic for the books category and a question topic otherwise.
   */
  function AddTopic(c: Category, title: string, url: string, name: string): (r: Category)
    ensures url == "#" ==> r == c
    ensures url != "#" ==>
      && r.node == c.node
      && |r.topics| == |c.topics| + 1
      && r.topics[..|c.topics|] == c.topics
      && r.topics[|c.topics|].node == NewNode(title, url)
    ensures url != "#" && name == LessonsName ==> r.topics[|c.topics|].variant == LessonTopic
    ensures url != "#" && name == BooksName ==> r.topics[|c.topics|].variant == BookTopic
    ensures url != "#" && name != LessonsName && name != BooksName ==> r.topics[|c.topics|].variant == QuestionTopic
  {
    if url != "#" then
      if name == LessonsName then
        c.(topics := c.topics + [Topic(LessonTopic, NewNode(title, url))])
      else if name == BooksName then
        c.(topics := c.topics + [Topic(BookTopic, NewNode(title, url))])
      else
        c.(topics := c.topics + [Topic(QuestionTopic, NewNode(title, url))])
    else
      c
  }
}
