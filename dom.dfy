/**
 * An already-parsed HTML document and the BeautifulSoup queries the status-page
 * code runs on it: `find`, `find_all`, `select("li.tank")`, `.text` and
 * `get_text(separator, strip)`. Every query walks the tree in document order
 * (pre-order), as BeautifulSoup's `descendants` generator does.
 */
module Dom {
  import opened Wrappers
  import opened PyStr

  /** An attribute value as the tree builder stores it: a string, or a list of strings. */
  datatype AttrValue = Str(s: string) | Multi(parts: seq<string>)

  /**
   * A node of the parsed page. Element names are lower case, as the HTML
   * parser produces them; `classes` is the class attribute split into tokens
   * ([] when there is none); `height` and `style` are the two attributes the
   * extractor reads besides `id` and `class`.
   */
  datatype Node =
    | Text(text: string)
    | Element(tag: string, id: Option<string>, classes: seq<string>,
              height: Option<AttrValue>, style: Option<AttrValue>, children: seq<Node>)

  /** A document is the sequence of its top-level nodes. */
  type Doc = seq<Node>

  /** All elements of the forest ns, each before its own descendants. */
  function Elements(ns: seq<Node>): (r: seq<Node>)
    ensures forall i :: 0 <= i < |r| ==> r[i].Element?
    decreases ns
  {
    if ns == [] then []
    else
      (match ns[0]
       case Text(_) => []
       case Element(_, _, _, _, _, kids) => [ns[0]] + Elements(kids))
      + Elements(ns[1..])
  }

  /** All text leaves of the forest ns, in document order. */
  function Strings(ns: seq<Node>): seq<string>
    decreases ns
  {
    if ns == [] then []
    else
      (match ns[0]
       case Text(t) => [t]
       case Element(_, _, _, _, _, kids) => Strings(kids))
      + Strings(ns[1..])
  }

  /** The stripped strings, with those that strip to "" left out. */
  function StrippedPieces(ss: seq<string>): (r: seq<string>)
    ensures forall i :: 0 <= i < |r| ==> r[i] != [] && IsStripped(r[i])
  {
    if ss == [] then []
    else (if Strip(ss[0]) == [] then [] else [Strip(ss[0])]) + StrippedPieces(ss[1..])
  }

  /**
   * `get_text(sep, strip)` of a node whose children are ns (`.text` is
   * `GetText(ns, "", false)`).
   */
  function GetText(ns: seq<Node>, sep: string, strip: bool): (r: string)
    ensures strip ==> IsStripped(r)
  {
    if strip then
      JoinStripped(sep, StrippedPieces(Strings(ns)));
      Join(sep, StrippedPieces(Strings(ns)))
    else Join(sep, Strings(ns))
  }

  /** The class filters the code uses. */
  datatype ClassTest =
    | AnyClass
      /** `class_="name"`: a class token equals name, or the whole class string does. */
    | ClassIs(name: string)
      /** The CSS selector `.name`: a class token equals name. */
    | HasToken(name: string)
      /** `class_=lambda c: isinstance(c, str) and part in c`: the class string contains part. */
    | ClassContains(part: string)

  predicate ClassMatches(t: ClassTest, classes: seq<string>) {
    match t
    case AnyClass => true
    case ClassIs(c) => c in classes || (classes != [] && Join(" ", classes) == c)
    case HasToken(c) => c in classes
    case ClassContains(p) => classes != [] && Contains(Join(" ", classes), p)
  }

  /** The arguments of a `find` call: an optional tag name, a class filter, an optional id. */
  datatype Matcher = Matcher(tag: Option<string>, cls: ClassTest, id: Option<string>)

  function Tag(name: string): Matcher { Matcher(Some(name), AnyClass, None) }

  function TagClass(name: string, cls: string): Matcher { Matcher(Some(name), ClassIs(cls), None) }

  predicate Matches(m: Matcher, n: Node) {
    n.Element? &&
    (m.tag.None? || n.tag == m.tag.value) &&
    ClassMatches(m.cls, n.classes) &&
    (m.id.None? || n.id == m.id)
  }

  function Filter(ns: seq<Node>, m: Matcher): (r: seq<Node>)
    ensures forall i :: 0 <= i < |r| ==> Matches(m, r[i])
    ensures r == [] <==> forall i :: 0 <= i < |ns| ==> !Matches(m, ns[i])
  {
    if ns == [] then []
    else (if Matches(m, ns[0]) then [ns[0]] else []) + Filter(ns[1..], m)
  }

  /** `node.find_all(...)` on a node whose children are ns: the matching descendants in document order. */
  function FindAll(ns: seq<Node>, m: Matcher): (r: seq<Node>)
    ensures forall i :: 0 <= i < |r| ==> Matches(m, r[i])
  {
    Filter(Elements(ns), m)
  }

  /** `node.find(...)`: the first matching descendant, or None. */
  function Find(ns: seq<Node>, m: Matcher): (r: Option<Node>)
    ensures r.Some? ==> Matches(m, r.value)
    ensures r.None? <==> forall i :: 0 <= i < |Elements(ns)| ==> !Matches(m, Elements(ns)[i])
  {
    var all := FindAll(ns, m);
    if all == [] then None else Some(all[0])
  }

  /** The first element Filter keeps is the first matching element of ns. */
  lemma {:induction false} FilterFirst(ns: seq<Node>, m: Matcher)
    requires Filter(ns, m) != []
    ensures exists i :: 0 <= i < |ns| && ns[i] == Filter(ns, m)[0] &&
                        forall j :: 0 <= j < i ==> !Matches(m, ns[j])
  {
    if !Matches(m, ns[0]) {
      assert Filter(ns, m) == Filter(ns[1..], m);
      FilterFirst(ns[1..], m);
      var i :| 0 <= i < |ns[1..]| && ns[1..][i] == Filter(ns[1..], m)[0]
        && forall j :: 0 <= j < i ==> !Matches(m, ns[1..][j]);
      assert forall j :: 1 <= j < i + 1 ==> ns[j] == ns[1..][j - 1];
    }
  }

  /** `find` returns the first matching descendant in document order. */
  lemma FindIsFirst(ns: seq<Node>, m: Matcher)
    ensures Find(ns, m).Some? ==>
      exists i :: 0 <= i < |Elements(ns)| && Elements(ns)[i] == Find(ns, m).value &&
                  forall j :: 0 <= j < i ==> !Matches(m, Elements(ns)[j])
  {
    if Find(ns, m).Some? {
      FilterFirst(Elements(ns), m);
    }
  }
}
