/** Which policies a snippet uses in which section, scripts/derive_policy_sections.py: a stack over a
    tag stream, against the tree the stream was written from. */
module Sections {
  import opened Wrappers

  const SECTIONS: seq<string> := ["inbound", "backend", "outbound", "on-error"]

  const TRANSPARENT: seq<string> := ["choose", "when", "otherwise", "retry", "wait", "limit-concurrency"]

  const CONTAINERS: seq<string> := ["http-request", "http-response"]

  /** One XML tag: opening, closing, or, with `empty`, both at once. */
  datatype Tag = Tag(name: string, close: bool, empty: bool)

  /** An element and its ancestors, outermost first. */
  type Element = (string, seq<string>)

  datatype StreamError = ClosesNothing | LeftOpen

  // --- The stack machine ---

  /** Pop to the innermost `name`, and that too. */
  function PopTo(stack: seq<string>, name: string): seq<string>
    requires name in stack
  {
    if stack[|stack| - 1] == name then stack[..|stack| - 1] else PopTo(stack[..|stack| - 1], name)
  }

  function Found(some: seq<Element>, r: Result<seq<Element>, StreamError>): Result<seq<Element>, StreamError> {
    match r
    case Ok(more) => Ok(some + more)
    case Err(e) => Err(e)
  }

  function Elements(tags: seq<Tag>, vocabulary: set<string>, stack: seq<string>): Result<seq<Element>, StreamError>
    decreases |tags|
  {
    if tags == [] then (if stack == [] then Ok([]) else Err(LeftOpen))
    else
      var t, rest := tags[0], tags[1..];
      if t.name !in vocabulary then Elements(rest, vocabulary, stack)
      else if t.close then
        if t.name !in stack then Err(ClosesNothing) else Elements(rest, vocabulary, PopTo(stack, t.name))
      else Found([(t.name, stack)], Elements(rest, vocabulary, if t.empty then stack else stack + [t.name]))
  }

  /** `snippet_elements`. */
  method SnippetElements(tags: seq<Tag>, vocabulary: set<string>) returns (r: Result<seq<Element>, StreamError>)
    ensures r == Elements(tags, vocabulary, [])
  {
    var found: seq<Element> := [];
    var stack: seq<string> := [];
    ghost var rest := tags;
    ghost var goal := Elements(tags, vocabulary, []);
    FoundTwice([], [], goal);
    for i := 0 to |tags|
      invariant rest == tags[i..] && goal == Found(found, Elements(rest, vocabulary, stack))
    {
      var t := tags[i];
      rest := rest[1..];
      if t.name !in vocabulary {
        continue;
      }
      if t.close {
        if t.name !in stack {
          return Err(ClosesNothing);
        }
        stack := PopUntil(stack, t.name);
        continue;
      }
      ghost var next := if t.empty then stack else stack + [t.name];
      FoundTwice(found, [(t.name, stack)], Elements(rest, vocabulary, next));
      found := found + [(t.name, stack)];
      if !t.empty {
        stack := stack + [t.name];
      }
    }
    if stack != [] {
      return Err(LeftOpen);
    }
    assert found + [] == found;
    return Ok(found);
  }

  /** `while stack.pop() != name`. */
  method PopUntil(stack: seq<string>, name: string) returns (rest: seq<string>)
    requires name in stack
    ensures rest == PopTo(stack, name)
  {
    rest := stack;
    var popped := rest[|rest| - 1];
    rest := rest[..|rest| - 1];
    while popped != name
      invariant popped != name ==> name in rest && PopTo(rest, name) == PopTo(stack, name)
      invariant popped == name ==> rest == PopTo(stack, name)
      decreases |rest|
    {
      popped := rest[|rest| - 1];
      assert rest == rest[..|rest| - 1] + [popped];
      rest := rest[..|rest| - 1];
    }
  }

  lemma FoundTwice(some: seq<Element>, more: seq<Element>, r: Result<seq<Element>, StreamError>)
    ensures Found(some, Found(more, r)) == Found(some + more, r)
    ensures Found([], r) == r
  {
    if r.Ok? {
      assert some + (more + r.value) == some + more + r.value;
      assert [] + r.value == r.value;
    }
  }

  // --- Trees ---

  /** An element written `<name/>`, or with children between `<name>` and, unless its author forgot
      it, `</name>`. */
  datatype Tree = Leaf(name: string) | Node(name: string, closed: bool, children: seq<Tree>)

  function Stream(t: Tree): seq<Tag> {
    match t
    case Leaf(name) => [Tag(name, false, true)]
    case Node(name, closed, children) =>
      [Tag(name, false, false)] + StreamAll(children) + (if closed then [Tag(name, true, false)] else [])
  }

  function StreamAll(forest: seq<Tree>): seq<Tag> {
    if forest == [] then [] else Stream(forest[0]) + StreamAll(forest[1..])
  }

  /** The names a tree leaves open, outermost first. */
  function LeavesOpen(t: Tree): seq<string> {
    match t
    case Node(name, false, children) => [name] + OpenAtEnd(children)
    case _ => []
  }

  function OpenAtEnd(forest: seq<Tree>): seq<string> {
    if forest == [] then [] else if |forest| > 1 then OpenAtEnd(forest[1..]) else LeavesOpen(forest[0])
  }

  /** All names are in the vocabulary; an unclosed element is the last among its siblings, and some
      element around it, with a name of its own, is closed, which ends it too. */
  predicate Readable(forest: seq<Tree>, vocabulary: set<string>) {
    forest == []
    || (&& forest[0].name in vocabulary
        && (forest[0].Node? ==>
              && Readable(forest[0].children, vocabulary)
              && (forest[0].closed ==> forest[0].name !in OpenAtEnd(forest[0].children))
              && (!forest[0].closed ==> |forest| == 1))
        && Readable(forest[1..], vocabulary))
  }

  /** A tree's element before those of its children, each with its ancestors in the tree. */
  function PreorderOf(t: Tree, ancestors: seq<string>): seq<Element> {
    [(t.name, ancestors)] + (if t.Node? then Preorder(t.children, ancestors + [t.name]) else [])
  }

  function Preorder(forest: seq<Tree>, ancestors: seq<string>): seq<Element> {
    if forest == [] then [] else PreorderOf(forest[0], ancestors) + Preorder(forest[1..], ancestors)
  }

  lemma {:induction false} PopPast(stack: seq<string>, name: string, open: seq<string>)
    requires name !in open
    ensures name in stack + [name] + open && PopTo(stack + [name] + open, name) == stack
    decreases |open|
  {
    var whole := stack + [name] + open;
    assert whole[|stack|] == name;
    if open != [] {
      assert whole[..|whole| - 1] == stack + [name] + open[..|open| - 1];
      PopPast(stack, name, open[..|open| - 1]);
    } else {
      assert whole[..|whole| - 1] == stack;
    }
  }

  lemma {:induction false} ElementsOfTree(t: Tree, more: seq<Tag>, vocabulary: set<string>, stack: seq<string>)
    requires Readable([t], vocabulary)
    ensures Elements(Stream(t) + more, vocabulary, stack)
         == Found(PreorderOf(t, stack), Elements(more, vocabulary, stack + LeavesOpen(t)))
    decreases t
  {
    hide Elements;
    match t
    case Leaf(name) =>
      OpenStep(name, true, more, vocabulary, stack);
      assert Stream(t) == [Tag(name, false, true)];
      assert PreorderOf(t, stack) == [(name, stack)];
      assert stack + LeavesOpen(t) == stack;
    case Node(name, closed, children) =>
      var inner, close := StreamAll(children), if closed then [Tag(name, true, false)] else [];
      var below := stack + [name];
      assert Stream(t) + more == [Tag(name, false, false)] + (inner + (close + more));
      OpenStep(name, false, inner + (close + more), vocabulary, stack);
      ElementsOfStream(children, close + more, vocabulary, below);
      FoundTwice([(name, stack)], Preorder(children, below), Elements(more, vocabulary, stack + LeavesOpen(t)));
      if closed {
        CloseStep(name, OpenAtEnd(children), more, vocabulary, stack);
        assert stack + [] == stack;
      } else {
        assert close + more == more;
        assert below + OpenAtEnd(children) == stack + LeavesOpen(t);
      }
  }

  /** THE STACK MACHINE READS THE TREE: over the stream of a readable forest it finds the forest's
      elements in preorder with their ancestors, and leaves open just what the forest does. */
  lemma {:induction false} ElementsOfStream(forest: seq<Tree>, rest: seq<Tag>, vocabulary: set<string>,
                                            stack: seq<string>)
    requires Readable(forest, vocabulary)
    ensures Elements(StreamAll(forest) + rest, vocabulary, stack)
         == Found(Preorder(forest, stack), Elements(rest, vocabulary, stack + OpenAtEnd(forest)))
    decreases forest
  {
    hide Elements, Stream, PreorderOf;
    if forest == [] {
      assert StreamAll(forest) + rest == rest && stack + [] == stack;
      FoundTwice([], [], Elements(rest, vocabulary, stack));
    } else {
      var t, more := forest[0], StreamAll(forest[1..]) + rest;
      assert StreamAll(forest) + rest == Stream(t) + more;
      assert [t][1..] == [];
      ElementsOfTree(t, more, vocabulary, stack);
      var goal := Elements(rest, vocabulary, stack + OpenAtEnd(forest));
      if |forest| == 1 {
        assert more == rest;
        assert PreorderOf(t, stack) + [] == PreorderOf(t, stack);
      } else {
        assert LeavesOpen(t) == [] && stack + [] == stack;
        ElementsOfStream(forest[1..], rest, vocabulary, stack);
        FoundTwice(PreorderOf(t, stack), Preorder(forest[1..], stack), goal);
      }
    }
  }

  lemma OpenStep(name: string, empty: bool, rest: seq<Tag>, vocabulary: set<string>, stack: seq<string>)
    requires name in vocabulary
    ensures Elements([Tag(name, false, empty)] + rest, vocabulary, stack)
         == Found([(name, stack)], Elements(rest, vocabulary, if empty then stack else stack + [name]))
  {
    assert ([Tag(name, false, empty)] + rest)[1..] == rest;
  }

  lemma CloseStep(name: string, open: seq<string>, rest: seq<Tag>, vocabulary: set<string>, stack: seq<string>)
    requires name in vocabulary && name !in open
    ensures Elements([Tag(name, true, false)] + rest, vocabulary, stack + [name] + open)
         == Elements(rest, vocabulary, stack)
  {
    assert ([Tag(name, true, false)] + rest)[1..] == rest;
    PopPast(stack, name, open);
  }

  // --- Tags outside the vocabulary ---

  /** A closing tag closes, whether or not it also ends in a slash. */
  function Plain(tag: Tag): Tag {
    if tag.close then Tag(tag.name, true, false) else tag
  }

  function Relevant(tags: seq<Tag>, vocabulary: set<string>): seq<Tag> {
    if tags == [] then []
    else (if tags[0].name in vocabulary then [Plain(tags[0])] else []) + Relevant(tags[1..], vocabulary)
  }

  lemma {:induction false} IrrelevantTagsAreSkipped(tags: seq<Tag>, vocabulary: set<string>, stack: seq<string>)
    ensures Elements(tags, vocabulary, stack) == Elements(Relevant(tags, vocabulary), vocabulary, stack)
    decreases |tags|
  {
    if tags != [] {
      var t, rest := tags[0], tags[1..];
      if t.name !in vocabulary {
        IrrelevantTagsAreSkipped(rest, vocabulary, stack);
        assert [] + Relevant(rest, vocabulary) == Relevant(rest, vocabulary);
      } else {
        assert ([Plain(t)] + Relevant(rest, vocabulary))[1..] == Relevant(rest, vocabulary);
        if !t.close {
          IrrelevantTagsAreSkipped(rest, vocabulary, if t.empty then stack else stack + [t.name]);
        } else if t.name in stack {
          IrrelevantTagsAreSkipped(rest, vocabulary, PopTo(stack, t.name));
        }
      }
    }
  }

  /** A snippet is read as the tree its relevant tags spell, whatever tags lie between them. */
  lemma SnippetIsPreorder(tags: seq<Tag>, forest: seq<Tree>, vocabulary: set<string>)
    requires Relevant(tags, vocabulary) == StreamAll(forest)
    requires Readable(forest, vocabulary) && OpenAtEnd(forest) == []
    ensures Elements(tags, vocabulary, []) == Ok(Preorder(forest, []))
  {
    IrrelevantTagsAreSkipped(tags, vocabulary, []);
    ElementsOfStream(forest, [], vocabulary, []);
    assert StreamAll(forest) + [] == StreamAll(forest);
    assert Preorder(forest, []) + [] == Preorder(forest, []);
  }

  /** Roots left open are refused. */
  lemma OpenRootsAreRefused(tags: seq<Tag>, forest: seq<Tree>, vocabulary: set<string>)
    requires Relevant(tags, vocabulary) == StreamAll(forest)
    requires Readable(forest, vocabulary) && OpenAtEnd(forest) != []
    ensures Elements(tags, vocabulary, []) == Err(LeftOpen)
  {
    IrrelevantTagsAreSkipped(tags, vocabulary, []);
    ElementsOfStream(forest, [], vocabulary, []);
    assert StreamAll(forest) + [] == StreamAll(forest);
    assert [] + OpenAtEnd(forest) == OpenAtEnd(forest);
  }

  // --- Every snippet as a tree ---

  /** The forest that plain tags spell up to a closing tag that closes none of its elements, and the
      tags from there on. */
  function Read(tags: seq<Tag>): (r: (seq<Tree>, seq<Tag>))
    ensures |r.1| <= |tags|
    decreases |tags|
  {
    if tags == [] || tags[0].close then ([], tags)
    else if tags[0].empty then
      var (more, rest) := Read(tags[1..]);
      ([Leaf(tags[0].name)] + more, rest)
    else
      var (children, after) := Read(tags[1..]);
      if after != [] && after[0].name == tags[0].name then
        var (more, rest) := Read(after[1..]);
        ([Node(tags[0].name, true, children)] + more, rest)
      else ([Node(tags[0].name, false, children)], after)
  }

  predicate PlainTags(tags: seq<Tag>, vocabulary: set<string>) {
    forall k | 0 <= k < |tags| :: tags[k].name in vocabulary && (tags[k].close ==> !tags[k].empty)
  }

  lemma {:induction false} RelevantIsPlain(tags: seq<Tag>, vocabulary: set<string>)
    ensures PlainTags(Relevant(tags, vocabulary), vocabulary)
  {
    if tags != [] {
      RelevantIsPlain(tags[1..], vocabulary);
    }
  }

  /** What is read is a readable forest, spelled by the tags it was read from, and nothing in it is
      left open that the next tag would close. */
  lemma {:induction false} ReadSpells(tags: seq<Tag>, vocabulary: set<string>)
    requires PlainTags(tags, vocabulary)
    ensures var (forest, rest) := Read(tags);
            && Readable(forest, vocabulary) && tags == StreamAll(forest) + rest && PlainTags(rest, vocabulary)
            && (rest != [] ==> rest[0].close && rest[0].name !in OpenAtEnd(forest))
    decreases |tags|
  {
    hide Stream, StreamAll, Readable, OpenAtEnd;
    NothingRead();
    if tags != [] && !tags[0].close {
      var t := tags[0];
      assert tags == [t] + tags[1..];
      ReadSpells(tags[1..], vocabulary);
      if t.empty {
        var (more, rest) := Read(tags[1..]);
        LeafStream(t.name, StreamAll(more) + rest);
        ReadOne(Leaf(t.name), more, rest, tags, vocabulary);
      } else {
        var (children, after) := Read(tags[1..]);
        if after != [] && after[0].name == t.name {
          ReadSpells(after[1..], vocabulary);
          var (more, rest) := Read(after[1..]);
          ReadClosed(t.name, children, after, more, rest, tags, vocabulary);
        } else {
          ReadOpen(t.name, children, after, tags, vocabulary);
        }
      }
    }
  }

  lemma ReadClosed(name: string, children: seq<Tree>, after: seq<Tag>, more: seq<Tree>, rest: seq<Tag>, tags: seq<Tag>,
                   vocabulary: set<string>)
    requires name in vocabulary && Readable(children, vocabulary) && Readable(more, vocabulary)
    requires after != [] && after[0] == Tag(name, true, false) && name !in OpenAtEnd(children)
    requires after[1..] == StreamAll(more) + rest
    requires tags == [Tag(name, false, false)] + (StreamAll(children) + after)
    ensures var forest := [Node(name, true, children)] + more;
            && Readable(forest, vocabulary) && tags == StreamAll(forest) + rest
            && OpenAtEnd(forest) == if more == [] then [] else OpenAtEnd(more)
  {
    hide Stream, StreamAll, Readable, OpenAtEnd;
    assert after == [after[0]] + after[1..];
    NodeStream(name, true, children, after[1..]);
    ReadOne(Node(name, true, children), more, rest, tags, vocabulary);
  }

  lemma ReadOpen(name: string, children: seq<Tree>, after: seq<Tag>, tags: seq<Tag>, vocabulary: set<string>)
    requires name in vocabulary && Readable(children, vocabulary)
    requires tags == [Tag(name, false, false)] + (StreamAll(children) + after)
    ensures var forest := [Node(name, false, children)];
            && Readable(forest, vocabulary) && tags == StreamAll(forest) + after
            && OpenAtEnd(forest) == [name] + OpenAtEnd(children)
  {
    hide Stream, StreamAll, Readable, OpenAtEnd;
    NothingRead();
    var node := Node(name, false, children);
    NodeStream(name, false, children, after);
    assert [] + after == after;
    ReadOne(node, [], after, tags, vocabulary);
    assert [node] + [] == [node];
  }

  lemma NothingRead()
    ensures StreamAll([]) == [] && OpenAtEnd([]) == [] && forall vocabulary :: Readable([], vocabulary)
  {
  }

  lemma LeafStream(name: string, rest: seq<Tag>)
    ensures [Tag(name, false, true)] + rest == Stream(Leaf(name)) + rest
  {
  }

  lemma NodeStream(name: string, closed: bool, children: seq<Tree>, rest: seq<Tag>)
    ensures var close := if closed then [Tag(name, true, false)] else [];
            var stream := [Tag(name, false, false)] + (StreamAll(children) + (close + rest));
            stream == Stream(Node(name, closed, children)) + rest
  {
  }

  /** A tree before a forest that was read. */
  lemma ReadOne(t: Tree, more: seq<Tree>, rest: seq<Tag>, tags: seq<Tag>, vocabulary: set<string>)
    requires t.name in vocabulary && Readable(more, vocabulary)
    requires t.Node? ==>
               && Readable(t.children, vocabulary) && (t.closed ==> t.name !in OpenAtEnd(t.children))
               && (!t.closed ==> more == [])
    requires tags == Stream(t) + (StreamAll(more) + rest)
    ensures Readable([t] + more, vocabulary) && tags == StreamAll([t] + more) + rest
    ensures OpenAtEnd([t] + more) == if more == [] then LeavesOpen(t) else OpenAtEnd(more)
  {
    var forest := [t] + more;
    assert forest[0] == t && forest[1..] == more;
  }

  /** EVERY SNIPPET IS READ AS A TREE: its relevant tags spell a readable forest up to the first closing
      tag that closes nothing; if there is one, or something is left open, the snippet is refused, and
      else its elements are the forest's. */
  lemma SnippetIsRead(tags: seq<Tag>, vocabulary: set<string>)
    ensures var (forest, rest) := Read(Relevant(tags, vocabulary));
            && Readable(forest, vocabulary) && Relevant(tags, vocabulary) == StreamAll(forest) + rest
            && Elements(tags, vocabulary, []) ==
                 if rest != [] then Err(ClosesNothing)
                 else if OpenAtEnd(forest) != [] then Err(LeftOpen)
                 else Ok(Preorder(forest, []))
  {
    hide Read, Relevant, Readable, Preorder, StreamAll, OpenAtEnd;
    var relevant := Relevant(tags, vocabulary);
    var (forest, rest) := Read(relevant);
    RelevantIsPlain(tags, vocabulary);
    ReadSpells(relevant, vocabulary);
    IrrelevantTagsAreSkipped(tags, vocabulary, []);
    ElementsOfStream(forest, rest, vocabulary, []);
    assert [] + OpenAtEnd(forest) == OpenAtEnd(forest);
    assert Preorder(forest, []) + [] == Preorder(forest, []);
  }

  /** So the accepted snippets are exactly those whose relevant tags spell a readable forest that leaves
      nothing open. */
  lemma AcceptedSnippets(tags: seq<Tag>, vocabulary: set<string>)
    ensures Elements(tags, vocabulary, []).Ok? <==>
              exists forest :: StreamAll(forest) == Relevant(tags, vocabulary)
                               && Readable(forest, vocabulary) && OpenAtEnd(forest) == []
  {
    hide Elements, Relevant, Readable, StreamAll, OpenAtEnd, Read;
    SnippetIsRead(tags, vocabulary);
    if Elements(tags, vocabulary, []).Ok? {
      var (forest, rest) := Read(Relevant(tags, vocabulary));
      assert StreamAll(forest) + [] == StreamAll(forest);
    }
    if forest :| StreamAll(forest) == Relevant(tags, vocabulary) && Readable(forest, vocabulary)
                 && OpenAtEnd(forest) == [] {
      SnippetIsPreorder(tags, forest, vocabulary);
    }
  }

  // --- Uses at section level ---

  type Use = (string, string)

  predicate AllTransparent(names: seq<string>) {
    forall k | 0 <= k < |names| :: names[k] in TRANSPARENT
  }

  /** Looking outwards in: the first ancestor that is a section counts, if all below it is transparent. */
  function UseOf(name: string, ancestors: seq<string>): Option<Use> {
    if ancestors == [] then None
    else if ancestors[0] !in SECTIONS then UseOf(name, ancestors[1..])
    else if AllTransparent(ancestors[1..]) then Some((name, ancestors[0]))
    else None
  }

  function UsesIn(elements: seq<Element>, names: set<string>): set<Use> {
    set e | e in elements && e.0 in names && UseOf(e.0, e.1).Some? :: UseOf(e.0, e.1).value
  }

  function Vocabulary(names: set<string>): set<string> {
    names + (set s | s in SECTIONS) + (set s | s in TRANSPARENT) + (set s | s in CONTAINERS) + {"policies", "fragment"}
  }

  /** The inner loop of `section_uses`. */
  method FindUse(name: string, ancestors: seq<string>) returns (use: Option<Use>)
    ensures use == UseOf(name, ancestors)
  {
    ghost var rest := ancestors;
    for depth := 0 to |ancestors|
      invariant rest == ancestors[depth..] && UseOf(name, ancestors) == UseOf(name, rest)
    {
      if ancestors[depth] !in SECTIONS {
        rest := rest[1..];
        continue;
      }
      assert rest[1..] == ancestors[depth + 1..];
      return if AllTransparent(ancestors[depth + 1..]) then Some((name, ancestors[depth])) else None;
    }
    return None;
  }

  /** `section_uses`. */
  method SectionUses(tags: seq<Tag>, names: set<string>) returns (r: Result<set<Use>, StreamError>)
    ensures match Elements(tags, Vocabulary(names), [])
            case Ok(elements) => r == Ok(UsesIn(elements, names))
            case Err(e) => r == Err(e)
  {
    var elements := SnippetElements(tags, Vocabulary(names));
    if elements.Err? {
      return Err(elements.error);
    }
    var used: set<Use> := {};
    for i := 0 to |elements.value|
      invariant used == UsesIn(elements.value[..i], names)
    {
      var (name, ancestors) := elements.value[i];
      var so := elements.value[..i];
      assert elements.value[..i + 1] == so + [elements.value[i]];
      UsesInAppend(so, elements.value[i], names);
      if name in names {
        var use := FindUse(name, ancestors);
        if use.Some? {
          used := used + {use.value};
        }
      }
    }
    assert elements.value[..|elements.value|] == elements.value;
    return Ok(used);
  }

  function UsesOfOne(e: Element, names: set<string>): set<Use> {
    if e.0 in names && UseOf(e.0, e.1).Some? then {UseOf(e.0, e.1).value} else {}
  }

  lemma UsesInAppend(elements: seq<Element>, e: Element, names: set<string>)
    ensures UsesIn(elements + [e], names) == UsesIn(elements, names) + UsesOfOne(e, names)
  {
    hide UseOf;
    assert forall x :: x in elements + [e] <==> x in elements || x == e;
  }

  lemma UsesInConcat(a: seq<Element>, b: seq<Element>, names: set<string>)
    ensures UsesIn(a + b, names) == UsesIn(a, names) + UsesIn(b, names)
  {
    hide UseOf;
    assert forall x :: x in a + b <==> x in a || x in b;
  }

  // --- What that says about the tree ---

  /** Where an element stands: outside every section, at the level of one, or inside something that
      hides its section. */
  datatype Place = Outside | Level(section: string) | Hidden

  function Enter(place: Place, name: string): Place {
    match place
    case Outside => if name in SECTIONS then Level(name) else Outside
    case Level(_) => if name in TRANSPARENT then place else Hidden
    case Hidden => Hidden
  }

  /** The policies of the tree that stand at section level, with that section. */
  function TreeUses(forest: seq<Tree>, place: Place, names: set<string>): set<Use> {
    if forest == [] then {}
    else
      (if forest[0].name in names && place.Level? then {(forest[0].name, place.section)} else {})
      + (if forest[0].Node? then TreeUses(forest[0].children, Enter(place, forest[0].name), names) else {})
      + TreeUses(forest[1..], place, names)
  }

  function PlaceOf(ancestors: seq<string>): Place {
    if ancestors == [] then Outside else Enter(PlaceOf(ancestors[..|ancestors| - 1]), ancestors[|ancestors| - 1])
  }

  /** The place of an element by its ancestors, section by section from the outside. */
  lemma {:induction false} UseOfIsPlace(name: string, ancestors: seq<string>)
    ensures UseOf(name, ancestors) == match PlaceOf(ancestors)
                                      case Level(section) => Some((name, section))
                                      case _ => None
    ensures PlaceOf(ancestors).Outside? <==> forall k | 0 <= k < |ancestors| :: ancestors[k] !in SECTIONS
  {
    if ancestors != [] {
      var init, last := ancestors[..|ancestors| - 1], ancestors[|ancestors| - 1];
      UseOfIsPlace(name, init);
      assert ancestors == init + [last];
      UseOfAppend(name, init, last);
    }
  }

  /** The ancestor at `k` is the outermost section, and only elements that pass it on stand below. */
  ghost predicate PassesThrough(ancestors: seq<string>, k: nat) {
    && k < |ancestors| && ancestors[k] in SECTIONS
    && (forall j | 0 <= j < k :: ancestors[j] !in SECTIONS)
    && (forall j | k < j < |ancestors| :: ancestors[j] in TRANSPARENT)
  }

  /** A USE IS AT SECTION LEVEL exactly when the outermost section is passed through to it. */
  lemma {:induction false} UseIsPassedThrough(name: string, ancestors: seq<string>)
    ensures forall use :: UseOf(name, ancestors) == Some(use) <==>
              exists k: nat :: PassesThrough(ancestors, k) && use == (name, ancestors[k])
  {
    if ancestors != [] {
      var rest := ancestors[1..];
      UseIsPassedThrough(name, rest);
      if ancestors[0] !in SECTIONS {
        forall k: nat ensures PassesThrough(rest, k) <==> PassesThrough(ancestors, k + 1) {
          PassesLater(ancestors, k);
        }
        assert forall k: nat :: PassesThrough(ancestors, k) ==> k > 0 && PassesThrough(rest, k - 1);
      } else {
        assert AllTransparent(rest) <==> PassesThrough(ancestors, 0) by {
          assert forall j | 0 < j < |ancestors| :: ancestors[j] == rest[j - 1];
        }
      }
    }
  }

  lemma PassesLater(ancestors: seq<string>, k: nat)
    requires ancestors != [] && ancestors[0] !in SECTIONS
    ensures PassesThrough(ancestors[1..], k) <==> PassesThrough(ancestors, k + 1)
  {
    var rest := ancestors[1..];
    assert forall j | 0 <= j < |rest| :: rest[j] == ancestors[j + 1];
    assert forall j | 0 < j < |ancestors| :: ancestors[j] == rest[j - 1];
  }

  lemma {:induction false} UseOfAppend(name: string, init: seq<string>, last: string)
    ensures UseOf(name, init + [last]) ==
              if exists k | 0 <= k < |init| :: init[k] in SECTIONS then
                if last in TRANSPARENT then UseOf(name, init) else None
              else if last in SECTIONS then Some((name, last))
              else None
  {
    var all := init + [last];
    if init == [] {
      assert all[1..] == [];
    } else {
      assert all[1..] == init[1..] + [last];
      UseOfAppend(name, init[1..], last);
      if init[0] !in SECTIONS {
        assert forall k | 0 < k < |init| :: init[k] == init[1..][k - 1];
        assert forall k | 0 <= k < |init[1..]| :: init[1..][k] == init[k + 1];
      } else {
        var inner := init[1..] + [last];
        assert inner[|init| - 1] == last && inner[..|init| - 1] == init[1..];
        assert AllTransparent(inner) <==> AllTransparent(init[1..]) && last in TRANSPARENT by {
          assert forall k | 0 <= k < |init| - 1 :: inner[k] == init[1..][k];
        }
      }
    }
  }

  lemma {:induction false} UsesOfPreorder(forest: seq<Tree>, ancestors: seq<string>, names: set<string>)
    ensures UsesIn(Preorder(forest, ancestors), names) == TreeUses(forest, PlaceOf(ancestors), names)
    decreases forest
  {
    hide UsesIn, UseOf, PlaceOf;
    if forest == [] {
      UsesInNone(names);
    } else {
      var head: Element := (forest[0].name, ancestors);
      var below := if forest[0].Node? then Preorder(forest[0].children, ancestors + [forest[0].name]) else [];
      UsesInHead(head, names);
      UsesInNone(names);
      UsesInConcat([head], below, names);
      assert PreorderOf(forest[0], ancestors) == [head] + below;
      UsesInConcat([head] + below, Preorder(forest[1..], ancestors), names);
      UsesOfPreorder(forest[1..], ancestors, names);
      if forest[0].Node? {
        UsesOfPreorder(forest[0].children, ancestors + [forest[0].name], names);
        PlaceBelow(ancestors, forest[0].name);
      }
    }
  }

  lemma UsesInNone(names: set<string>)
    ensures UsesIn([], names) == {}
  {
  }

  lemma UsesInHead(e: Element, names: set<string>)
    ensures UsesIn([e], names) == if e.0 in names && PlaceOf(e.1).Level? then {(e.0, PlaceOf(e.1).section)} else {}
  {
    hide UseOf, PlaceOf;
    UseOfIsPlace(e.0, e.1);
    UsesInAppend([], e, names);
    assert [] + [e] == [e];
  }

  lemma PlaceBelow(ancestors: seq<string>, name: string)
    ensures PlaceOf(ancestors + [name]) == Enter(PlaceOf(ancestors), name)
  {
    var all := ancestors + [name];
    assert all[..|all| - 1] == ancestors;
  }

  /** SECTION USES ARE READ OFF THE TREE: a snippet whose relevant tags spell a tree reports exactly the
      policies that the tree has at section level. */
  lemma SectionUsesOfTree(tags: seq<Tag>, forest: seq<Tree>, names: set<string>)
    requires Relevant(tags, Vocabulary(names)) == StreamAll(forest)
    requires Readable(forest, Vocabulary(names)) && OpenAtEnd(forest) == []
    ensures Elements(tags, Vocabulary(names), []).Ok?
    ensures UsesIn(Elements(tags, Vocabulary(names), []).value, names) == TreeUses(forest, Outside, names)
  {
    SnippetIsPreorder(tags, forest, Vocabulary(names));
    UsesOfPreorder(forest, [], names);
  }

  /** And every accepted snippet has such a tree. */
  lemma SectionUsesOfAccepted(tags: seq<Tag>, names: set<string>) returns (forest: seq<Tree>)
    requires Elements(tags, Vocabulary(names), []).Ok?
    ensures Relevant(tags, Vocabulary(names)) == StreamAll(forest)
    ensures Readable(forest, Vocabulary(names)) && OpenAtEnd(forest) == []
    ensures UsesIn(Elements(tags, Vocabulary(names), []).value, names) == TreeUses(forest, Outside, names)
  {
    hide Elements, Relevant, Readable, StreamAll, OpenAtEnd, TreeUses, UsesIn, Vocabulary;
    AcceptedSnippets(tags, Vocabulary(names));
    forest :| StreamAll(forest) == Relevant(tags, Vocabulary(names)) && Readable(forest, Vocabulary(names))
              && OpenAtEnd(forest) == [];
    SectionUsesOfTree(tags, forest, names);
  }

  // --- Widening the documented sections ---

  /** What the snippet corpus uses: a policy, a section, and the snippets that do. */
  datatype Pair = Pair(name: string, section: string, snippets: seq<string>)

  type Derived = map<string, seq<string>>

  datatype WidenError = Unclassified(pair: Pair) | WrongWitness(pair: Pair) | Stale

  /** `ordered`: the four sections in their fixed order, those that are in the set. */
  function Ordered(sections: set<string>): seq<string> {
    OrderedFrom(SECTIONS, sections)
  }

  function OrderedFrom(order: seq<string>, sections: set<string>): (r: seq<string>)
    ensures forall s :: s in r <==> s in order && s in sections
  {
    if order == [] then []
    else
      var r := OrderedFrom(order[1..], sections);
      assert order == [order[0]] + order[1..];
      if order[0] in sections then [order[0]] + r else r
  }

  function Members(s: seq<string>): set<string> {
    set x | x in s
  }

  /** The corpus uses a policy in a section that its page, which documents some, does not. */
  predicate Conflict(derived: Derived, p: Pair) {
    p.name in derived && derived[p.name] != [] && p.section !in derived[p.name]
  }

  /** The conflicting sections of one policy. */
  function Added(derived: Derived, pairs: seq<Pair>, name: string): set<string> {
    set p | p in pairs && p.name == name && Conflict(derived, p) :: p.section
  }

  predicate Classified(widens: map<Use, string>, p: Pair) {
    (p.name, p.section) in widens && widens[(p.name, p.section)] in p.snippets
  }

  /** Every conflict is classified by a snippet that shows it. */
  predicate AllClassified(derived: Derived, pairs: seq<Pair>, widens: map<Use, string>) {
    forall p | p in pairs && Conflict(derived, p) :: Classified(widens, p)
  }

  function Conflicts(derived: Derived, pairs: seq<Pair>): set<Use> {
    set p | p in pairs && Conflict(derived, p) :: (p.name, p.section)
  }

  /** The documented sections and those the corpus adds. */
  function Widened(derived: Derived, pairs: seq<Pair>): Derived {
    map name | name in derived ::
      if Added(derived, pairs, name) == {} then derived[name]
      else Ordered(Members(derived[name]) + Added(derived, pairs, name))
  }

  /** The additions alone, for the policies that have some. */
  function Additions(derived: Derived, pairs: seq<Pair>): Derived {
    map name | name in derived && Added(derived, pairs, name) != {} :: Ordered(Added(derived, pairs, name))
  }

  /** Pairs are the keys of a dictionary, and every section is one of the four. */
  predicate CorpusPairs(pairs: seq<Pair>) {
    && (forall i, j | 0 <= i < j < |pairs| :: pairs[i].name != pairs[j].name || pairs[i].section != pairs[j].section)
    && (forall p | p in pairs :: p.section in SECTIONS)
  }

  predicate KnownSections(derived: Derived) {
    forall name | name in derived :: forall s | s in derived[name] :: s in SECTIONS
  }

  /** What each refusal means; one about a pair is about the first such. */
  predicate Objects(error: WidenError, documented: Derived, pairs: seq<Pair>, widens: map<Use, string>) {
    match error
    case Stale => AllClassified(documented, pairs, widens)
    case Unclassified(p) => FirstOpen(p, documented, pairs, widens) && (p.name, p.section) !in widens
    case WrongWitness(p) => FirstOpen(p, documented, pairs, widens) && (p.name, p.section) in widens
  }

  predicate FirstOpen(p: Pair, documented: Derived, pairs: seq<Pair>, widens: map<Use, string>) {
    exists i | 0 <= i < |pairs| ::
      && pairs[i] == p && Conflict(documented, p) && !Classified(widens, p)
      && AllClassified(documented, pairs[..i], widens)
  }

  /** `widen`: it succeeds exactly when every conflict is classified by a snippet that shows it and no
      classification is stale, and then adds just the conflicting sections. */
  method Widen(documented: Derived, pairs: seq<Pair>, widens: map<Use, string>)
    returns (r: Result<(Derived, Derived), WidenError>)
    requires CorpusPairs(pairs) && KnownSections(documented)
    ensures r.Ok? <==> AllClassified(documented, pairs, widens) && widens.Keys <= Conflicts(documented, pairs)
    ensures r.Ok? ==> r.value == (Widened(documented, pairs), Additions(documented, pairs))
    ensures r.Err? ==> Objects(r.error, documented, pairs, widens)
  {
    var derived, widened: Derived, classified: set<Use> := documented, map[], {};
    WidenedByNone(documented);
    for i := 0 to |pairs|
      invariant derived == Widened(documented, pairs[..i]) && widened == Additions(documented, pairs[..i])
      invariant classified == Conflicts(documented, pairs[..i])
      invariant AllClassified(documented, pairs[..i], widens)
    {
      var p := pairs[i];
      assert p in pairs;
      assert pairs[..i + 1] == pairs[..i] + [p];
      ConflictIsUnchanged(documented, pairs, i);
      if !Conflict(derived, p) {
        NoConflictAddsNone(documented, pairs[..i], p);
        continue;
      }
      assert !Classified(widens, p) ==> FirstOpen(p, documented, pairs, widens);
      if (p.name, p.section) !in widens {
        return Err(Unclassified(p));
      }
      if widens[(p.name, p.section)] !in p.snippets {
        return Err(WrongWitness(p));
      }
      ConflictWidens(documented, pairs[..i], p);
      ConflictAdds(documented, pairs[..i], p);
      ConflictsAppend(documented, pairs[..i], p);
      classified := classified + {(p.name, p.section)};
      derived := derived[p.name := Ordered(Members(derived[p.name]) + {p.section})];
      widened := widened[p.name := Ordered((if p.name in widened then Members(widened[p.name]) else {}) + {p.section})];
    }
    assert pairs[..|pairs|] == pairs;
    var stale := widens.Keys - classified;
    if stale != {} {
      return Err(Stale);
    }
    assert forall use | use in widens.Keys :: use !in stale ==> use in classified;
    return Ok((derived, widened));
  }

  lemma WidenedByNone(derived: Derived)
    ensures Widened(derived, []) == derived && Additions(derived, []) == map[] && Conflicts(derived, []) == {}
  {
    assert forall name :: Added(derived, [], name) == {};
  }

  lemma AddedAppend(derived: Derived, pairs: seq<Pair>, p: Pair, name: string)
    ensures Added(derived, pairs + [p], name)
         == Added(derived, pairs, name) + (if p.name == name && Conflict(derived, p) then {p.section} else {})
  {
    assert forall q :: q in pairs + [p] <==> q in pairs || q == p;
  }

  lemma ConflictsAppend(derived: Derived, pairs: seq<Pair>, p: Pair)
    ensures Conflicts(derived, pairs + [p])
         == Conflicts(derived, pairs) + (if Conflict(derived, p) then {(p.name, p.section)} else {})
  {
    assert forall q :: q in pairs + [p] <==> q in pairs || q == p;
  }

  /** Widening so far does not hide or make up the next conflict. */
  lemma ConflictIsUnchanged(documented: Derived, pairs: seq<Pair>, i: nat)
    requires i < |pairs| && CorpusPairs(pairs)
    ensures Conflict(Widened(documented, pairs[..i]), pairs[i]) <==> Conflict(documented, pairs[i])
  {
    var p, so := pairs[i], pairs[..i];
    if p.name in documented && documented[p.name] != [] {
      var added := Added(documented, so, p.name);
      forall q | q in so && q.name == p.name ensures q.section != p.section {
        var k :| 0 <= k < i && pairs[k] == q;
      }
      assert p.section !in added;
      assert pairs[i] in pairs;
      if added != {} {
        var s :| s in added;
        assert exists q :: q in so && q.section == s;
        var q :| q in so && q.section == s;
        assert q in pairs;
        assert s in Widened(documented, so)[p.name];
      }
    }
  }

  lemma NoConflictAddsNone(documented: Derived, so: seq<Pair>, p: Pair)
    requires !Conflict(documented, p)
    ensures Widened(documented, so + [p]) == Widened(documented, so)
    ensures Additions(documented, so + [p]) == Additions(documented, so)
    ensures Conflicts(documented, so + [p]) == Conflicts(documented, so)
  {
    forall name ensures Added(documented, so + [p], name) == Added(documented, so, name) {
      AddedAppend(documented, so, p, name);
    }
    ConflictsAppend(documented, so, p);
  }

  lemma OrderedOfOrdered(a: set<string>, b: set<string>)
    ensures Ordered(Members(Ordered(a)) + b) == Ordered(a + b)
  {
    OrderedDependsOnSections(SECTIONS, Members(Ordered(a)) + b, a + b);
  }

  lemma {:induction false} OrderedDependsOnSections(order: seq<string>, a: set<string>, b: set<string>)
    requires forall s | s in order :: s in a <==> s in b
    ensures OrderedFrom(order, a) == OrderedFrom(order, b)
  {
    if order != [] {
      assert order[0] in order;
      OrderedDependsOnSections(order[1..], a, b);
    }
  }

  lemma AddedWithConflict(documented: Derived, so: seq<Pair>, p: Pair)
    requires Conflict(documented, p)
    ensures forall name :: Added(documented, so + [p], name)
                        == Added(documented, so, name) + (if p.name == name then {p.section} else {})
  {
    hide Added, Conflict;
    forall name
      ensures Added(documented, so + [p], name)
           == Added(documented, so, name) + (if p.name == name then {p.section} else {})
    {
      AddedAppend(documented, so, p, name);
    }
  }

  lemma ConflictWidens(documented: Derived, so: seq<Pair>, p: Pair)
    requires Conflict(documented, p)
    ensures var derived := Widened(documented, so);
            Widened(documented, so + [p]) == derived[p.name := Ordered(Members(derived[p.name]) + {p.section})]
  {
    hide Ordered, Added;
    AddedWithConflict(documented, so, p);
    var before, known := Added(documented, so, p.name), Members(documented[p.name]);
    var derived, after := Widened(documented, so), Widened(documented, so + [p]);
    assert p.section in Added(documented, so + [p], p.name);
    assert known + before + {p.section} == known + Added(documented, so + [p], p.name);
    OrderedOfOrdered(known + before, {p.section});
    assert after[p.name] == Ordered(Members(derived[p.name]) + {p.section}) by {
      if before == {} {
        assert known + {p.section} == known + Added(documented, so + [p], p.name);
      }
    }
    forall name | name in documented && name != p.name ensures after[name] == derived[name] {
      assert Added(documented, so + [p], name) == Added(documented, so, name);
    }
  }

  lemma ConflictAdds(documented: Derived, so: seq<Pair>, p: Pair)
    requires Conflict(documented, p)
    ensures var widened := Additions(documented, so);
            Additions(documented, so + [p])
            == widened[p.name := Ordered((if p.name in widened then Members(widened[p.name]) else {}) + {p.section})]
  {
    hide Ordered, Added;
    AddedWithConflict(documented, so, p);
    var before := Added(documented, so, p.name);
    var widened, after := Additions(documented, so), Additions(documented, so + [p]);
    assert p.section in Added(documented, so + [p], p.name);
    assert before + {p.section} == Added(documented, so + [p], p.name);
    OrderedOfOrdered(before, {p.section});
    assert before == {} ==> before + {p.section} == {p.section};
    forall name | name in documented && name != p.name
      ensures Added(documented, so + [p], name) == Added(documented, so, name)
    {
    }
  }

  predicate SectionBefore(a: string, b: string, order: seq<string>) {
    exists i, j | 0 <= i < j < |order| :: order[i] == a && order[j] == b
  }

  predicate InOrder(sections: seq<string>, order: seq<string>) {
    forall i, j | 0 <= i < j < |sections| :: SectionBefore(sections[i], sections[j], order)
  }

  /** In the fixed order of the sections. */
  predicate InSectionOrder(sections: seq<string>) {
    InOrder(sections, SECTIONS)
  }

  lemma LaterInOrder(a: string, b: string, order: seq<string>)
    requires order != []
    ensures SectionBefore(a, b, order[1..]) ==> SectionBefore(a, b, order)
    ensures a == order[0] && b in order[1..] ==> SectionBefore(a, b, order)
  {
    if SectionBefore(a, b, order[1..]) {
      var i, j :| 0 <= i < j < |order[1..]| && order[1..][i] == a && order[1..][j] == b;
      assert order[i + 1] == a && order[j + 1] == b;
    }
    if a == order[0] && b in order[1..] {
      var k :| 0 <= k < |order[1..]| && order[1..][k] == b;
      assert order[k + 1] == b;
    }
  }

  lemma {:induction false} OrderedFromAscends(order: seq<string>, sections: set<string>)
    ensures InOrder(OrderedFrom(order, sections), order)
  {
    hide SectionBefore;
    if order != [] {
      var rest, r := OrderedFrom(order[1..], sections), OrderedFrom(order, sections);
      OrderedFromAscends(order[1..], sections);
      var drop := if order[0] in sections then 1 else 0;
      forall i, j | 0 <= i < j < |r| ensures SectionBefore(r[i], r[j], order) {
        LaterInOrder(r[i], r[j], order);
        assert r[j] == rest[j - drop] && r[j] in rest;
        assert i >= drop ==> r[i] == rest[i - drop];
      }
    }
  }

  /** The corpus uses the policy in this section. */
  ghost predicate UsedIn(pairs: seq<Pair>, name: string, section: string) {
    exists p | p in pairs :: p.name == name && p.section == section
  }

  /** WHAT WIDENING LEAVES each policy: the sections its page documents, and if it documents any, also those
      the corpus uses it in, all in the fixed order; the additions are what was not documented. */
  lemma WidenedSections(documented: Derived, pairs: seq<Pair>, name: string, section: string)
    requires CorpusPairs(pairs) && KnownSections(documented)
    ensures name in Widened(documented, pairs) <==> name in documented
    ensures name in documented ==>
              (section in Widened(documented, pairs)[name] <==>
                 section in documented[name] || (documented[name] != [] && UsedIn(pairs, name, section)))
    ensures name in documented ==>
              Widened(documented, pairs)[name] == documented[name] || InSectionOrder(Widened(documented, pairs)[name])
    ensures name in Additions(documented, pairs) ==>
              name in documented && InSectionOrder(Additions(documented, pairs)[name])
    ensures name in Additions(documented, pairs) && section in Additions(documented, pairs)[name] <==>
              name in documented && documented[name] != [] && section !in documented[name] &&
              UsedIn(pairs, name, section)
  {
    hide InSectionOrder;
    if name in documented {
      var known, added := Members(documented[name]), Added(documented, pairs, name);
      OrderedAscends(known + added);
      OrderedAscends(added);
      assert section in added <==>
             documented[name] != [] && section !in documented[name] && UsedIn(pairs, name, section);
    }
  }

  lemma OrderedAscends(sections: set<string>)
    ensures InSectionOrder(Ordered(sections))
  {
    hide OrderedFrom, SectionBefore;
    OrderedFromAscends(SECTIONS, sections);
    assert Ordered(sections) == OrderedFrom(SECTIONS, sections);
  }

  /** AFTER WIDENING the pages and the corpus agree. */
  lemma WideningResolves(documented: Derived, pairs: seq<Pair>)
    requires CorpusPairs(pairs) && KnownSections(documented)
    ensures Conflicts(Widened(documented, pairs), pairs) == {}
  {
    hide Widened;
    forall p | p in pairs ensures !Conflict(Widened(documented, pairs), p) {
      WidenedSections(documented, pairs, p.name, p.section);
      if p.name in documented && documented[p.name] == [] && Widened(documented, pairs)[p.name] != [] {
        var s := Widened(documented, pairs)[p.name][0];
        WidenedSections(documented, pairs, p.name, s);
      }
      assert p.name in documented && documented[p.name] != [] ==> UsedIn(pairs, p.name, p.section);
    }
  }
}
