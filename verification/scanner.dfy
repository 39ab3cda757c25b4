/** The outlet scanner for storyboard and xib documents: one pre-order walk
    over the parsed element tree collects outlet connections and candidate
    views, and the views no connection points to are reported as
    disconnected. The instance state of the `IBOutletScanner` class (its two
    accumulating arrays and the globally parsed options) is threaded through
    explicitly: the walk takes and returns the collections, and the custom
    view class names are a parameter. */
module Scanner {
  import Text
  import Sequences
  import Wrappers
  import CommandLineOptions

  /** A node of the parsed document. `Opaque` stands for a child whose
      `element` is absent; the walk skips it together with everything below
      it. */
  datatype Node =
    | Element(name: string, attributes: map<string, string>, children: seq<Node>)
    | Opaque(children: seq<Node>)

  /** An outlet wiring, identified by the id of the object it points to. */
  datatype Connection = Connection(destination: string)

  /** A view that is a candidate for the disconnection report. */
  datatype View = View(identifier: string, elementType: string, customClass: string)

  /** The two collections the walk fills. */
  datatype Collected = Collected(connections: seq<Connection>, views: seq<View>)

  const OutletElementTypes: seq<string> := ["outlet"]

  const ViewElementTypes: seq<string> :=
    ["barButtonItem", "button", "label", "segmentedControl",
     "tabBarItem", "tableView", "textField", "textView", "view"]

  /** Attribute values that rule an element out as a view: system toolbar
      spacers can never be wired to an outlet. */
  const IgnoreViewFilters: map<string, seq<string>> :=
    map["systemItem" := ["flexibleSpace", "fixedSpace"]]

  const NoCollections := Collected([], [])

  function Append(a: Collected, b: Collected): Collected
  {
    Collected(a.connections + b.connections, a.views + b.views)
  }

  // ---------------------------------------------------------------------
  // Classifying one element

  /** An element is ignored when some filter names one of its attributes and
      lists that attribute's text among its values. */
  predicate ShouldIgnore(attributes: map<string, string>, filters: map<string, seq<string>>)
  {
    exists name :: name in filters && name in attributes && attributes[name] in filters[name]
  }

  /** `shouldIgnore(viewElement:)`'s nested loop over the filter dictionary,
      in whatever order the dictionary yields its entries, returning at the
      first match. */
  method ShouldIgnoreByScanning(attributes: map<string, string>, filters: map<string, seq<string>>)
    returns (ignore: bool)
    ensures ignore <==> ShouldIgnore(attributes, filters)
  {
    var pending := filters.Keys;
    while pending != {}
      invariant pending <= filters.Keys
      invariant forall name :: name in filters && name !in pending ==>
                  !(name in attributes && attributes[name] in filters[name])
      decreases pending
    {
      var name :| name in pending;
      if name in attributes {
        var attribute := attributes[name];
        var values := filters[name];
        var j := 0;
        while j < |values|
          invariant 0 <= j <= |values|
          invariant forall k :: 0 <= k < j ==> values[k] != attribute
        {
          if attribute == values[j] {
            return true;
          }
          j := j + 1;
        }
      }
      pending := pending - {name};
    }
    return false;
  }

  /** With the fixed table, an element is ignored exactly when its
      `systemItem` is `flexibleSpace` or `fixedSpace`. */
  lemma FixedIgnoreFilter(attributes: map<string, string>)
    ensures ShouldIgnore(attributes, IgnoreViewFilters)
            <==> "systemItem" in attributes
                 && (attributes["systemItem"] == "flexibleSpace" || attributes["systemItem"] == "fixedSpace")
  {
    if "systemItem" in attributes
       && (attributes["systemItem"] == "flexibleSpace" || attributes["systemItem"] == "fixedSpace") {
      assert "systemItem" in IgnoreViewFilters;
    }
  }

  /** The connection an element contributes: one for an outlet that names a
      destination, none otherwise. */
  function OutletConnections(e: Node): (r: seq<Connection>)
    requires e.Element?
    ensures |r| <= 1
    ensures |r| == 1 <==> e.name in OutletElementTypes && "destination" in e.attributes
    ensures forall c :: c in r ==> "destination" in e.attributes && c.destination == e.attributes["destination"]
  {
    if e.name in OutletElementTypes && "destination" in e.attributes
    then [Connection(e.attributes["destination"])]
    else []
  }

  /** The `customClass` attribute, or the empty string when it is absent. */
  function CustomClassOf(attributes: map<string, string>): string
  {
    if "customClass" in attributes then attributes["customClass"] else ""
  }

  /** The conditions under which an element is a candidate view: its tag is on
      the allow-list, no filter ignores it, it carries an `id` (present, not
      necessarily non-empty), and a generic `view` must moreover declare one
      of the configured custom classes. */
  predicate IsViewCandidate(e: Node, customViewClassNames: seq<string>)
  {
    && e.Element?
    && e.name in ViewElementTypes
    && !ShouldIgnore(e.attributes, IgnoreViewFilters)
    && "id" in e.attributes
    && (e.name == "view" ==> CustomClassOf(e.attributes) in customViewClassNames)
  }

  /** The view record for a candidate element. */
  function ViewRecord(e: Node): View
    requires e.Element? && "id" in e.attributes
  {
    View(e.attributes["id"], e.name, CustomClassOf(e.attributes))
  }

  /** The view an element contributes, decided in the order `parse(xml:)`
      tests its conditions. */
  function ViewsOf(e: Node, customViewClassNames: seq<string>): (r: seq<View>)
    requires e.Element?
    ensures |r| <= 1
    ensures |r| == 1 <==> IsViewCandidate(e, customViewClassNames)
    ensures forall v :: v in r ==> "id" in e.attributes && v == ViewRecord(e)
  {
    if e.name in ViewElementTypes && !ShouldIgnore(e.attributes, IgnoreViewFilters) then
      if "id" in e.attributes then
        var customClass := CustomClassOf(e.attributes);
        if e.name != "view" || (e.name == "view" && customClass in customViewClassNames)
        then [View(e.attributes["id"], e.name, customClass)]
        else []
      else []
    else []
  }

  /** Both independent checks applied to one element; a node without an
      element representation contributes nothing. */
  function Classify(n: Node, customViewClassNames: seq<string>): Collected
  {
    match n
    case Opaque(_) => NoCollections
    case Element(_, _, _) => Collected(OutletConnections(n), ViewsOf(n, customViewClassNames))
  }

  /** A class-name value that is empty or ends in a comma contributes the
      empty name, which is the class a `view` without `customClass` is
      looked up under: every such `view` with an `id` becomes a candidate. */
  lemma EmptyClassNameAdmitsBareViews(program: string, flag: string, value: string,
                                      defaultRootPath: Wrappers.Option<string>, e: Node)
    requires CommandLineOptions.IsClassNamesFlag(flag)
    requires value == "" || value[|value| - 1] == ','
    requires e.Element? && e.name == "view" && "id" in e.attributes && "customClass" !in e.attributes
    requires !ShouldIgnore(e.attributes, IgnoreViewFilters)
    ensures IsViewCandidate(e, CommandLineOptions.Parse([program, flag, value], defaultRootPath).customViewClassNames)
  {
    CommandLineOptions.ValueAfterFlagIsConsumed([program], flag, value, defaultRootPath);
    assert [program] + [flag, value] == [program, flag, value];
    var pieces := Text.Split(value, ',');
    assert [] + pieces == pieces;
    if value == "" {
      assert pieces == [""];
    } else {
      Text.SplitTrailingSeparator(value[..|value| - 1], ',');
      assert value[..|value| - 1] + [','] == value;
    }
    assert "" in pieces;
  }

  // ---------------------------------------------------------------------
  // The walk

  /** The walk as written: for each child in order, skip it if it is not an
      element; otherwise classify it, appending to `acc`, then walk its
      children. The collections only ever grow. */
  function Walk(nodes: seq<Node>, customViewClassNames: seq<string>, acc: Collected): (r: Collected)
    ensures acc.connections <= r.connections && acc.views <= r.views
    decreases nodes
  {
    if |nodes| == 0 then acc
    else
      var afterFirst :=
        match nodes[0]
        case Opaque(_) => acc
        case Element(_, _, children) =>
          Walk(children, customViewClassNames, Append(acc, Classify(nodes[0], customViewClassNames)));
      Walk(nodes[1..], customViewClassNames, afterFirst)
  }

  /** One document scanned with fresh, empty collections. */
  function Scan(document: seq<Node>, customViewClassNames: seq<string>): Collected
  {
    Walk(document, customViewClassNames, NoCollections)
  }

  /** The element nodes of a forest in pre-order: each element before its
      descendants, siblings in document order, nothing below an opaque node. */
  function PreOrder(nodes: seq<Node>): (r: seq<Node>)
    ensures forall i :: 0 <= i < |r| ==> r[i].Element?
    decreases nodes
  {
    if |nodes| == 0 then []
    else
      (match nodes[0]
       case Opaque(_) => []
       case Element(_, _, children) => [nodes[0]] + PreOrder(children))
      + PreOrder(nodes[1..])
  }

  /** `n` is an element reachable from `nodes` through element nodes only. */
  predicate Reached(nodes: seq<Node>, n: Node)
    decreases nodes
  {
    exists i :: 0 <= i < |nodes| && nodes[i].Element? && (nodes[i] == n || Reached(nodes[i].children, n))
  }

  /** The pre-order lists exactly the elements reachable without passing
      through a non-element node. */
  lemma {:induction false} PreOrderListsReachedElements(nodes: seq<Node>, n: Node)
    ensures n in PreOrder(nodes) <==> Reached(nodes, n)
    decreases nodes
  {
    if |nodes| > 0 {
      PreOrderListsReachedElements(nodes[1..], n);
      if nodes[0].Element? {
        PreOrderListsReachedElements(nodes[0].children, n);
      }
      if Reached(nodes, n) {
        var i :| 0 <= i < |nodes| && nodes[i].Element? && (nodes[i] == n || Reached(nodes[i].children, n));
        if i > 0 {
          assert nodes[1..][i - 1] == nodes[i];
        }
      }
      if Reached(nodes[1..], n) {
        var i :| 0 <= i < |nodes[1..]| && nodes[1..][i].Element?
                 && (nodes[1..][i] == n || Reached(nodes[1..][i].children, n));
        assert nodes[i + 1] == nodes[1..][i];
      }
    }
  }

  /** Classifying a sequence of elements, in order. */
  function ClassifyAll(elements: seq<Node>, customViewClassNames: seq<string>): Collected
  {
    if |elements| == 0 then NoCollections
    else Append(Classify(elements[0], customViewClassNames), ClassifyAll(elements[1..], customViewClassNames))
  }

  lemma {:induction false} ClassifyAllConcat(a: seq<Node>, b: seq<Node>, customViewClassNames: seq<string>)
    ensures ClassifyAll(a + b, customViewClassNames)
            == Append(ClassifyAll(a, customViewClassNames), ClassifyAll(b, customViewClassNames))
    decreases |a|
  {
    if |a| == 0 {
      assert a + b == b;
    } else {
      var own := Classify(a[0], customViewClassNames);
      assert (a + b)[0] == a[0];
      assert (a + b)[1..] == a[1..] + b;
      ClassifyAllConcat(a[1..], b, customViewClassNames);
      calc {
        ClassifyAll(a + b, customViewClassNames);
        Append(own, ClassifyAll(a[1..] + b, customViewClassNames));
        Append(own, Append(ClassifyAll(a[1..], customViewClassNames), ClassifyAll(b, customViewClassNames)));
        { AppendAssociative(own, ClassifyAll(a[1..], customViewClassNames), ClassifyAll(b, customViewClassNames)); }
        Append(Append(own, ClassifyAll(a[1..], customViewClassNames)), ClassifyAll(b, customViewClassNames));
      }
    }
  }

  /** The accumulating walk appends to `acc` exactly the classification of
      every element in pre-order: each element is classified once, a parent
      before its descendants, and nothing below an opaque node. */
  lemma {:induction false} WalkClassifiesPreOrder(nodes: seq<Node>, customViewClassNames: seq<string>, acc: Collected)
    ensures Walk(nodes, customViewClassNames, acc)
            == Append(acc, ClassifyAll(PreOrder(nodes), customViewClassNames))
    decreases nodes
  {
    if |nodes| > 0 {
      var rest := ClassifyAll(PreOrder(nodes[1..]), customViewClassNames);
      if nodes[0].Opaque? {
        WalkClassifiesPreOrder(nodes[1..], customViewClassNames, acc);
        assert Walk(nodes, customViewClassNames, acc) == Walk(nodes[1..], customViewClassNames, acc);
        assert PreOrder(nodes) == [] + PreOrder(nodes[1..]) == PreOrder(nodes[1..]);
      } else {
        var e := nodes[0];
        var own := Classify(e, customViewClassNames);
        var below := ClassifyAll(PreOrder(e.children), customViewClassNames);
        var afterFirst := Walk(e.children, customViewClassNames, Append(acc, own));
        WalkClassifiesPreOrder(e.children, customViewClassNames, Append(acc, own));
        WalkClassifiesPreOrder(nodes[1..], customViewClassNames, afterFirst);
        PreOrderOfElementFirst(nodes, customViewClassNames);
        calc {
          Walk(nodes, customViewClassNames, acc);
          Walk(nodes[1..], customViewClassNames, afterFirst);
          Append(Append(Append(acc, own), below), rest);
          { AppendAssociative(acc, own, below); }
          Append(Append(acc, Append(own, below)), rest);
          { AppendAssociative(acc, Append(own, below), rest); }
          Append(acc, Append(Append(own, below), rest));
        }
      }
    }
  }

  lemma AppendAssociative(a: Collected, b: Collected, c: Collected)
    ensures Append(Append(a, b), c) == Append(a, Append(b, c))
  {
    assert a.connections + b.connections + c.connections == a.connections + (b.connections + c.connections);
    assert a.views + b.views + c.views == a.views + (b.views + c.views);
  }

  /** The classification of a forest whose first node is an element: that
      element's, then its descendants', then the later siblings'. */
  lemma PreOrderOfElementFirst(nodes: seq<Node>, customViewClassNames: seq<string>)
    requires |nodes| > 0 && nodes[0].Element?
    ensures ClassifyAll(PreOrder(nodes), customViewClassNames)
            == Append(Append(Classify(nodes[0], customViewClassNames),
                             ClassifyAll(PreOrder(nodes[0].children), customViewClassNames)),
                      ClassifyAll(PreOrder(nodes[1..]), customViewClassNames))
  {
    var e := nodes[0];
    var below := PreOrder(e.children);
    var rest := PreOrder(nodes[1..]);
    assert PreOrder(nodes) == [e] + below + rest;
    ClassifyAllConcat([e] + below, rest, customViewClassNames);
    assert ([e] + below)[1..] == below;
  }

  /** A scan collects exactly the classification of the document's elements in pre-order. */
  lemma ScanClassifiesPreOrder(document: seq<Node>, customViewClassNames: seq<string>)
    ensures Scan(document, customViewClassNames) == ClassifyAll(PreOrder(document), customViewClassNames)
  {
    WalkClassifiesPreOrder(document, customViewClassNames, NoCollections);
    var c := ClassifyAll(PreOrder(document), customViewClassNames);
    assert [] + c.connections == c.connections && [] + c.views == c.views;
  }

  /** A document that is one childless element scans to that element's
      classification. */
  lemma ScanOfLeaf(e: Node, customViewClassNames: seq<string>)
    requires e.Element? && e.children == []
    ensures Scan([e], customViewClassNames) == Classify(e, customViewClassNames)
  {
    ScanClassifiesPreOrder([e], customViewClassNames);
    assert [e][1..] == [];
    assert PreOrder([e]) == [e];
    var c := Classify(e, customViewClassNames);
    assert ClassifyAll([e], customViewClassNames) == Append(c, NoCollections);
    assert c.connections + [] == c.connections && c.views + [] == c.views;
  }

  /** A parent's contribution comes before its descendants', and both before
      those of its later siblings. */
  lemma ParentBeforeDescendants(e: Node, siblings: seq<Node>, customViewClassNames: seq<string>)
    requires e.Element?
    ensures Scan([e] + siblings, customViewClassNames)
            == Append(Append(Classify(e, customViewClassNames), Scan(e.children, customViewClassNames)),
                      Scan(siblings, customViewClassNames))
  {
    ScanClassifiesPreOrder([e] + siblings, customViewClassNames);
    ScanClassifiesPreOrder(e.children, customViewClassNames);
    ScanClassifiesPreOrder(siblings, customViewClassNames);
    assert ([e] + siblings)[1..] == siblings;
    PreOrderOfElementFirst([e] + siblings, customViewClassNames);
  }

  /** Nothing below a non-element node is visited. */
  lemma OpaqueSubtreeSkipped(children: seq<Node>, siblings: seq<Node>, customViewClassNames: seq<string>)
    ensures Scan([Opaque(children)] + siblings, customViewClassNames) == Scan(siblings, customViewClassNames)
  {
    assert ([Opaque(children)] + siblings)[1..] == siblings;
  }

  lemma {:induction false} ClassifyAllMembers(elements: seq<Node>, customViewClassNames: seq<string>)
    ensures forall c :: c in ClassifyAll(elements, customViewClassNames).connections <==>
              exists e :: e in elements && e.Element? && c in OutletConnections(e)
    ensures forall v :: v in ClassifyAll(elements, customViewClassNames).views <==>
              exists e :: e in elements && e.Element? && v in ViewsOf(e, customViewClassNames)
    decreases |elements|
  {
    if |elements| > 0 {
      ClassifyAllMembers(elements[1..], customViewClassNames);
      assert elements == [elements[0]] + elements[1..];
      forall c | exists e :: e in elements && e.Element? && c in OutletConnections(e)
        ensures c in ClassifyAll(elements, customViewClassNames).connections
      {
        var e :| e in elements && e.Element? && c in OutletConnections(e);
        if e != elements[0] {
          assert e in elements[1..];
        }
      }
      forall v | exists e :: e in elements && e.Element? && v in ViewsOf(e, customViewClassNames)
        ensures v in ClassifyAll(elements, customViewClassNames).views
      {
        var e :| e in elements && e.Element? && v in ViewsOf(e, customViewClassNames);
        if e != elements[0] {
          assert e in elements[1..];
        }
      }
    }
  }

  /** The connections of a document: one per reachable outlet element that
      names a destination, with that destination. */
  lemma ScanConnections(document: seq<Node>, customViewClassNames: seq<string>, destination: string)
    ensures Connection(destination) in Scan(document, customViewClassNames).connections
            <==> exists e :: Reached(document, e) && e.Element? && e.name in OutletElementTypes
                             && "destination" in e.attributes && e.attributes["destination"] == destination
  {
    ScanClassifiesPreOrder(document, customViewClassNames);
    ClassifyAllMembers(PreOrder(document), customViewClassNames);
    forall e {
      PreOrderListsReachedElements(document, e);
    }
    if exists e :: Reached(document, e) && e.Element? && e.name in OutletElementTypes
                   && "destination" in e.attributes && e.attributes["destination"] == destination {
      var e :| Reached(document, e) && e.Element? && e.name in OutletElementTypes
               && "destination" in e.attributes && e.attributes["destination"] == destination;
      assert Connection(destination) in OutletConnections(e);
    }
  }

  /** The views of a document: one per reachable candidate element, recorded
      with its id, tag and custom class. */
  lemma ScanViews(document: seq<Node>, customViewClassNames: seq<string>, v: View)
    ensures v in Scan(document, customViewClassNames).views
            <==> exists e :: Reached(document, e) && IsViewCandidate(e, customViewClassNames) && ViewRecord(e) == v
  {
    ScanClassifiesPreOrder(document, customViewClassNames);
    ClassifyAllMembers(PreOrder(document), customViewClassNames);
    forall e {
      PreOrderListsReachedElements(document, e);
    }
    if exists e :: Reached(document, e) && IsViewCandidate(e, customViewClassNames) && ViewRecord(e) == v {
      var e :| Reached(document, e) && IsViewCandidate(e, customViewClassNames) && ViewRecord(e) == v;
      var r := ViewsOf(e, customViewClassNames);
      assert r[0] in r;
    }
  }

  // ---------------------------------------------------------------------
  // Disconnected views

  /** The connections that point to the object with `identifier`. */
  function ConnectionsTo(connections: seq<Connection>, identifier: string): (r: seq<Connection>)
    ensures forall c :: c in r <==> c in connections && c.destination == identifier
    decreases |connections|
  {
    if |connections| == 0 then []
    else
      (if connections[0].destination == identifier then [connections[0]] else [])
      + ConnectionsTo(connections[1..], identifier)
  }

  /** Some connection points to `v`. */
  predicate IsConnected(v: View, connections: seq<Connection>)
  {
    exists c :: c in connections && c.destination == v.identifier
  }

  /** The views no connection points to, in their collected order. */
  function DisconnectedViews(views: seq<View>, connections: seq<Connection>): (r: seq<View>)
    ensures Sequences.IsSubsequence(r, views)
    decreases |views|
  {
    if |views| == 0 then []
    else
      var v := views[0];
      var rest := DisconnectedViews(views[1..], connections);
      if |ConnectionsTo(connections, v.identifier)| < 1 then
        assert ([v] + rest)[1..] == rest;
        [v] + rest
      else
        rest
  }

  /** The filter's test: no connection points to the view. */
  lemma CountBelowOneIffUnconnected(v: View, connections: seq<Connection>)
    ensures |ConnectionsTo(connections, v.identifier)| < 1 <==> !IsConnected(v, connections)
  {
    var matching := ConnectionsTo(connections, v.identifier);
    if IsConnected(v, connections) {
      var c :| c in connections && c.destination == v.identifier;
      assert c in matching;
    }
    if |matching| >= 1 {
      assert matching[0] in matching;
    }
  }

  /** Each view occurs in the report as often as it was collected when no
      connection points to it, and not at all otherwise. */
  lemma {:induction false} DisconnectedCounts(views: seq<View>, connections: seq<Connection>, v: View)
    ensures multiset(DisconnectedViews(views, connections))[v]
            == if IsConnected(v, connections) then 0 else multiset(views)[v]
    decreases |views|
  {
    if |views| > 0 {
      var w := views[0];
      DisconnectedCounts(views[1..], connections, v);
      CountBelowOneIffUnconnected(w, connections);
      assert views == [w] + views[1..];
      if IsConnected(w, connections) && w.identifier == v.identifier {
        assert IsConnected(v, connections);
      }
    }
  }

  /** A collected view is reported exactly when no connection points to it. */
  lemma DisconnectedMembership(views: seq<View>, connections: seq<Connection>, v: View)
    ensures v in DisconnectedViews(views, connections) <==> v in views && !IsConnected(v, connections)
  {
    var r := DisconnectedViews(views, connections);
    DisconnectedCounts(views, connections, v);
    assert v in r <==> multiset(r)[v] > 0;
    assert v in views <==> multiset(views)[v] > 0;
  }

  /** The report for one document. */
  function DisconnectedViewsOf(document: seq<Node>, customViewClassNames: seq<string>): seq<View>
  {
    var collected := Scan(document, customViewClassNames);
    DisconnectedViews(collected.views, collected.connections)
  }

  /** End to end: a view is reported for a document exactly when a reachable
      element is a candidate with that record and no reachable outlet names
      its id as destination. */
  lemma DocumentReport(document: seq<Node>, customViewClassNames: seq<string>, v: View)
    ensures v in DisconnectedViewsOf(document, customViewClassNames)
            <==> && (exists e :: Reached(document, e) && IsViewCandidate(e, customViewClassNames) && ViewRecord(e) == v)
                 && !(exists e :: Reached(document, e) && e.Element? && e.name in OutletElementTypes
                                  && "destination" in e.attributes && e.attributes["destination"] == v.identifier)
  {
    var collected := Scan(document, customViewClassNames);
    DisconnectedMembership(collected.views, collected.connections, v);
    ScanViews(document, customViewClassNames, v);
    ScanConnections(document, customViewClassNames, v.identifier);
    if IsConnected(v, collected.connections) {
      var c :| c in collected.connections && c.destination == v.identifier;
      assert c == Connection(v.identifier);
    } else {
      assert Connection(v.identifier) !in collected.connections;
    }
  }

  // ---------------------------------------------------------------------
  // Paths in the report

  /** The path printed for a file, as written: every occurrence of the root
      path is deleted, then leading `/` characters are dropped. */
  function RelativePath(file: string, rootPath: string): (r: string)
    ensures |r| == 0 || r[0] != '/'
    ensures var removed := Text.RemoveOccurrences(file, rootPath);
            && |r| <= |removed| && r == removed[|removed| - |r|..]
            && forall i :: 0 <= i < |removed| - |r| ==> removed[i] == '/'
  {
    Text.StripLeading(Text.RemoveOccurrences(file, rootPath), '/')
  }

  /** A path that neither contains the root path nor starts with `/` is
      printed unchanged. */
  lemma RelativePathUnchanged(file: string, rootPath: string)
    requires |rootPath| > 0
    requires forall i :: 0 <= i < |file| ==> !Text.OccursAt(file, rootPath, i)
    requires |file| == 0 || file[0] != '/'
    ensures RelativePath(file, rootPath) == file
  {
    Text.RemoveAbsent(file, rootPath);
  }

  /** No occurrence of the root path present in the file path survives the
      deletion: each one loses at least its first character. */
  lemma RelativePathErasesEveryRootOccurrence(file: string, rootPath: string)
    requires |rootPath| > 0
    ensures var erased := Text.ErasedPositions(file, rootPath);
            && Text.RemoveOccurrences(file, rootPath) == Text.Kept(file, erased)
            && forall i :: 0 <= i < |file| && Text.OccursAt(file, rootPath, i) ==> erased[i]
  {
    Text.RemoveOccurrencesKeepsUnerased(file, rootPath);
  }

  /** The root path is also deleted where it occurs after the start, which
      mangles a path whose directory names contain it. */
  lemma RelativePathDropsInteriorRoot()
    ensures RelativePath("/src/srcViews/Main.xib", "/src") == "Views/Main.xib"
  {
    var tail := "Views/Main.xib";
    var rest := "/src" + tail;
    var file := "/src" + rest;
    InteriorRootExampleParts();
    assert file[..4] == "/src" && file[4..] == rest;
    Text.RemoveLeadingOccurrence(file, "/src");
    assert rest[..4] == "/src" && rest[4..] == tail;
    Text.RemoveLeadingOccurrence(rest, "/src");
    RootAbsentFromViewsTail();
    assert tail[0] != '/';
    assert Text.StripLeading(tail, '/') == tail;
  }

  /** The example path is the root, the root again, and the rest. */
  lemma InteriorRootExampleParts()
    ensures "/src" + ("/src" + "Views/Main.xib") == "/src/srcViews/Main.xib"
  {
    assert "/src" + "Views/Main.xib" == "/srcViews/Main.xib";
  }

  /** The text left after both removals holds no `r`, hence no `/src`. */
  lemma RootAbsentFromViewsTail()
    ensures Text.RemoveOccurrences("Views/Main.xib", "/src") == "Views/Main.xib"
  {
    var tail := "Views/Main.xib";
    assert tail == "View" + "s/Ma" + "in.x" + "ib";
    assert 'r' !in "View" && 'r' !in "s/Ma" && 'r' !in "in.x" && 'r' !in "ib";
    Text.AbsentCharacterMeansNoOccurrence(tail, "/src", 2);
    Text.RemoveAbsent(tail, "/src");
  }

  /** The evidently intended relative path: the root path is removed only as
      a prefix, then leading `/` characters are dropped. */
  function RelativePathUnderRoot(file: string, rootPath: string): (r: string)
    ensures |r| == 0 || r[0] != '/'
    ensures var start := if rootPath <= file then |rootPath| else 0;
            && start + |r| <= |file| && r == file[|file| - |r|..]
            && forall i :: start <= i < |file| - |r| ==> file[i] == '/'
  {
    var rest := if rootPath <= file then file[|rootPath|..] else file;
    Text.StripLeading(rest, '/')
  }

  /** A run of `n` path separators. */
  function Slashes(n: nat): (r: string)
    ensures |r| == n && forall i :: 0 <= i < n ==> r[i] == '/'
  {
    seq(n, _ => '/')
  }

  /** Under the root, the file path is the root, some separators and the
      relative path, so nothing but the root prefix and separators is lost. */
  lemma RelativePathUnderRootReassembles(file: string, rootPath: string)
    requires rootPath <= file
    ensures var r := RelativePathUnderRoot(file, rootPath);
            file == rootPath + Slashes(|file| - |rootPath| - |r|) + r
  {
    UnderRootParts(file, rootPath);
    SlashesBetween(file, rootPath, RelativePathUnderRoot(file, rootPath));
  }

  /** Under the root, the corrected path's contract read with the root as prefix. */
  lemma UnderRootParts(file: string, rootPath: string)
    requires rootPath <= file
    ensures var r := RelativePathUnderRoot(file, rootPath);
            && |rootPath| + |r| <= |file|
            && rootPath == file[..|rootPath|] && r == file[|file| - |r|..]
            && forall i :: |rootPath| <= i < |file| - |r| ==> file[i] == '/'
  {
  }

  /** A path that is `prefix`, then only separators, then `rest` is exactly
      those three parts. */
  lemma SlashesBetween(file: string, prefix: string, rest: string)
    requires |prefix| + |rest| <= |file|
    requires prefix == file[..|prefix|] && rest == file[|file| - |rest|..]
    requires forall i :: |prefix| <= i < |file| - |rest| ==> file[i] == '/'
    ensures file == prefix + Slashes(|file| - |prefix| - |rest|) + rest
  {
    var n := |prefix|;
    var m := |file| - |rest|;
    forall i | 0 <= i < m - n
      ensures Slashes(m - n)[i] == file[n..m][i]
    {
      assert file[n..m][i] == file[n + i];
    }
    Sequences.ThreeParts(file, n, m);
  }

  /** When the root path occurs only as the prefix, the two agree. */
  lemma RelativePathAgreesForSingleOccurrence(file: string, rootPath: string)
    requires |rootPath| > 0 && rootPath <= file
    requires forall i :: 0 < i < |file| ==> !Text.OccursAt(file, rootPath, i)
    ensures RelativePath(file, rootPath) == RelativePathUnderRoot(file, rootPath)
  {
    var rest := file[|rootPath|..];
    assert Text.OccursAt(file, rootPath, 0);
    if |file| > 0 {
      assert Text.RemoveOccurrences(file, rootPath) == Text.RemoveOccurrences(rest, rootPath);
    }
    forall i | 0 <= i < |rest|
      ensures !Text.OccursAt(rest, rootPath, i)
    {
      Text.OccursInSuffix(file, rootPath, |rootPath|, i + |rootPath|);
    }
    Text.RemoveAbsent(rest, rootPath);
  }

  lemma RelativePathUnderRootKeepsInteriorRoot()
    ensures RelativePathUnderRoot("/src/srcViews/Main.xib", "/src") == "srcViews/Main.xib"
  {
    var file := "/src/srcViews/Main.xib";
    var rest := "/srcViews/Main.xib";
    var tail := "srcViews/Main.xib";
    assert file[..4] == "/src";
    assert "/src" <= file;
    assert file[4..] == rest;
    assert RelativePathUnderRoot(file, "/src") == Text.StripLeading(rest, '/');
    assert rest[0] == '/' && rest[1..] == tail;
    assert Text.StripLeading(rest, '/') == Text.StripLeading(tail, '/');
    assert tail[0] != '/';
    assert Text.StripLeading(tail, '/') == tail;
  }

  // ---------------------------------------------------------------------
  // Small documents

  /** A button wired by an outlet is not reported. */
  lemma WiredButtonIsNotReported()
    ensures var button := Element("button", map["id" := "b1"], []);
            var outlet := Element("outlet", map["destination" := "b1"], []);
            DisconnectedViewsOf([button, outlet], []) == []
  {
    var button := Element("button", map["id" := "b1"], []);
    var outlet := Element("outlet", map["destination" := "b1"], []);
    FixedIgnoreFilter(button.attributes);
    FixedIgnoreFilter(outlet.attributes);
    ScanClassifiesPreOrder([button, outlet], []);
    assert [button, outlet][1..] == [outlet];
    assert PreOrder([outlet]) == [outlet];
    assert PreOrder([button, outlet]) == [button, outlet];
    assert ClassifyAll([outlet], []) == Collected([Connection("b1")], []);
    assert [button, outlet][1..] == [outlet];
    var collected := Scan([button, outlet], []);
    assert collected == Collected([Connection("b1")], [View("b1", "button", "")]);
    CountBelowOneIffUnconnected(View("b1", "button", ""), collected.connections);
  }

  /** An unwired label is reported with its id, tag and an empty custom class. */
  lemma UnwiredLabelIsReported()
    ensures DisconnectedViewsOf([Element("label", map["id" := "l1"], [])], []) == [View("l1", "label", "")]
  {
    var labelNode := Element("label", map["id" := "l1"], []);
    FixedIgnoreFilter(labelNode.attributes);
    ScanOfLeaf(labelNode, []);
  }

  /** A system spacer is neither collected nor reported. */
  lemma SpacerIsIgnored()
    ensures var item := Element("tabBarItem", map["id" := "t1", "systemItem" := "fixedSpace"], []);
            Scan([item], []).views == [] && DisconnectedViewsOf([item], []) == []
  {
    var item := Element("tabBarItem", map["id" := "t1", "systemItem" := "fixedSpace"], []);
    FixedIgnoreFilter(item.attributes);
    ScanOfLeaf(item, []);
  }

  /** A generic view is collected only when its custom class is configured. */
  lemma GenericViewNeedsConfiguredClass()
    ensures var view := Element("view", map["id" := "v1", "customClass" := "Custom"], []);
            && DisconnectedViewsOf([view], ["Custom"]) == [View("v1", "view", "Custom")]
            && Scan([view], []).views == []
    ensures Scan([Element("view", map["id" := "v2"], [])], []).views == []
  {
    var view := Element("view", map["id" := "v1", "customClass" := "Custom"], []);
    var bare := Element("view", map["id" := "v2"], []);
    FixedIgnoreFilter(view.attributes);
    FixedIgnoreFilter(bare.attributes);
    ScanOfLeaf(view, ["Custom"]);
    ScanOfLeaf(view, []);
    ScanOfLeaf(bare, []);
    assert Scan([view], ["Custom"]) == Collected([], [View("v1", "view", "Custom")]);
  }

  /** Only the presence of `id` is checked: an empty id still yields a view. */
  lemma EmptyIdIsEnough()
    ensures ViewsOf(Element("button", map["id" := ""], []), []) == [View("", "button", "")]
  {
    FixedIgnoreFilter(map["id" := ""]);
  }
}
