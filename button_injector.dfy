/**
 * The injected "Zread" control (utils/button-injector.ts).
 *
 * The document is seen through what the injector touches: the selector
 * oracle that locates the anchor, the anchor's child list, and how many
 * controls (elements matching `.zread-container`) sit anywhere else.
 */
module ButtonInjector {
  import opened Wrappers
  import opened JsString
  import opened UrlTransformer
  import opened GithubDetector

  /** Longest text `sanitizeInput` lets through. */
  const MAX_INPUT_LENGTH: nat := 100

  predicate IsMarkupChar(c: char) {
    c == '<' || c == '>' || c == '\'' || c == '"'
  }

  /** `input.replace(/[<>'"]/g, '')`. */
  function StripMarkup(s: string): (r: string)
    ensures forall k :: 0 <= k < |r| ==> !IsMarkupChar(r[k])
    ensures (forall k :: 0 <= k < |s| ==> !IsMarkupChar(s[k])) ==> r == s
    ensures |r| <= |s|
  {
    if s == [] then []
    else if IsMarkupChar(s[0]) then StripMarkup(s[1..])
    else [s[0]] + StripMarkup(s[1..])
  }

  /** One character is dropped when it is markup and kept otherwise. */
  lemma StripMarkupChar(c: char)
    ensures StripMarkup([c]) == if IsMarkupChar(c) then [] else [c]
  {
    assert [c][1..] == [];
  }

  /** Stripping works piecewise: the characters of `a` that survive come
      first, in order, then those of `b`. */
  lemma {:induction false} StripMarkupAppend(a: string, b: string)
    ensures StripMarkup(a + b) == StripMarkup(a) + StripMarkup(b)
    decreases |a|
  {
    if a == [] {
      assert a + b == b;
    } else {
      StripMarkupAppend(a[1..], b);
      assert (a + b)[1..] == a[1..] + b;
    }
  }

  /** `sanitizeInput(input)`: drop `< > ' "`, trim, keep the first 100
      characters. */
  function SanitizeInput(input: string): (r: string)
    ensures forall k :: 0 <= k < |r| ==> !IsMarkupChar(r[k])
    ensures |r| <= MAX_INPUT_LENGTH
    ensures r == [] || !IsWhitespace(r[0])
  {
    var t := Trim(StripMarkup(input));
    if |t| <= MAX_INPUT_LENGTH then t else t[..MAX_INPUT_LENGTH]
  }

  /** Input that is already clean comes back unchanged. */
  lemma SanitizeClean(s: string)
    requires forall k :: 0 <= k < |s| ==> !IsMarkupChar(s[k])
    requires Trimmed(s) && |s| <= MAX_INPUT_LENGTH
    ensures SanitizeInput(s) == s
  {
    TrimOfTrimmed(s);
  }

  /** When trimming leaves at most 100 characters, a second pass changes
      nothing. */
  lemma SanitizeIdempotentWhenShort(s: string)
    requires |Trim(StripMarkup(s))| <= MAX_INPUT_LENGTH
    ensures SanitizeInput(SanitizeInput(s)) == SanitizeInput(s)
  {
    SanitizeClean(SanitizeInput(s));
  }

  /** Not idempotent in general: cutting at 100 characters can leave
      whitespace at the end, which a second pass trims. */
  lemma SanitizeNotIdempotent()
    ensures var s := seq(MAX_INPUT_LENGTH - 1, _ => 'a') + " b";
            SanitizeInput(SanitizeInput(s)) != SanitizeInput(s)
  {
    var a := seq(MAX_INPUT_LENGTH - 1, _ => 'a');
    var s := a + " b";
    assert StripMarkup(s) == s;
    TrimOfTrimmed(s);
    var once := SanitizeInput(s);
    assert once == a + " " by {
      assert s[..MAX_INPUT_LENGTH] == a + " ";
    }
    assert StripMarkup(once) == once;
    assert TrailingWhitespace(once) >= 1;
    assert |SanitizeInput(once)| < |once|;
  }

  /** The `href` of the link `createButtonElement(owner, repo)` builds. */
  /** It is a Zread address, and it names the sanitized owner and repo
      exactly. */
  function ButtonHref(owner: string, repo: string): (href: string)
    ensures StartsWith(href, ZREAD_ORIGIN)
    ensures ParseZreadUrl(href) == Some((SanitizeInput(owner), SanitizeInput(repo)))
  {
    ZreadUrlRoundTrip(SanitizeInput(owner), SanitizeInput(repo));
    GenerateZreadUrl(SanitizeInput(owner), SanitizeInput(repo))
  }

  /** A child of the anchor: the injected control (with its link's href) or
      one of the host page's own nodes. */
  datatype Node = Control(href: string) | HostNode(id: nat)

  function CountControls(nodes: seq<Node>): (n: nat)
    ensures n <= |nodes|
    ensures n == 0 <==> forall k :: 0 <= k < |nodes| ==> !nodes[k].Control?
  {
    if nodes == [] then 0 else (if nodes[0].Control? then 1 else 0) + CountControls(nodes[1..])
  }

  /** What the injector sees of the document. */
  datatype DocState = DocState(dom: Dom, anchorChildren: seq<Node>, controlsElsewhere: nat)

  /** The anchor's children are only meaningful while there is an anchor. */
  predicate WellFormed(d: DocState) {
    NavigationContainer(d.dom).None? ==> d.anchorChildren == []
  }

  /** Number of elements matching `.zread-container` in the document. */
  function ControlCount(d: DocState): nat {
    CountControls(d.anchorChildren) + d.controlsElsewhere
  }

  /** `zreadButtonExists()`: some control is in the document, under the
      anchor or elsewhere. */
  function ButtonExists(d: DocState): (b: bool)
    ensures b <==> (exists k :: 0 <= k < |d.anchorChildren| && d.anchorChildren[k].Control?)
                   || d.controlsElsewhere > 0
  {
    ControlCount(d) > 0
  }

  /** `injectZreadButton(owner, repo)`: the new document and the returned flag. */
  function Inject(d: DocState, owner: string, repo: string): (r: (DocState, bool))
    requires WellFormed(d)
    ensures WellFormed(r.0)
    ensures r.1 <==> !ButtonExists(d) && NavigationContainer(d.dom).Some?
    ensures !r.1 ==> r.0 == d
    ensures r.1 ==> && r.0.anchorChildren == [Control(ButtonHref(owner, repo))] + d.anchorChildren
                    && r.0.dom == d.dom && r.0.controlsElsewhere == d.controlsElsewhere
                    && ControlCount(r.0) == 1
  {
    if ButtonExists(d) then (d, false)
    else if NavigationContainer(d.dom).None? then (d, false)
    else (d.(anchorChildren := [Control(ButtonHref(owner, repo))] + d.anchorChildren), true)
  }

  /** The host page's own nodes among `nodes`, in order. */
  function HostNodes(nodes: seq<Node>): (r: seq<Node>)
    ensures |r| + CountControls(nodes) == |nodes|
    ensures forall k :: 0 <= k < |r| ==> r[k].HostNode?
  {
    if nodes == [] then []
    else if nodes[0].Control? then HostNodes(nodes[1..])
    else [nodes[0]] + HostNodes(nodes[1..])
  }

  /** The anchor's children with their first control taken out: one
      control fewer, and the host's nodes as they were, in order. */
  function RemoveFirstControl(nodes: seq<Node>): (r: seq<Node>)
    requires CountControls(nodes) > 0
    ensures CountControls(r) == CountControls(nodes) - 1
    ensures HostNodes(r) == HostNodes(nodes)
    ensures |r| == |nodes| - 1
  {
    if nodes[0].Control? then nodes[1..] else [nodes[0]] + RemoveFirstControl(nodes[1..])
  }

  /** `removeZreadButton()`: detach one control if there is one. With
      controls both under the anchor and elsewhere, the one under the anchor
      is taken (document order is not modelled). */
  function Remove(d: DocState): (r: DocState)
    requires WellFormed(d)
    ensures WellFormed(r) && r.dom == d.dom
    ensures !ButtonExists(d) ==> r == d
    ensures ButtonExists(d) ==> ControlCount(r) == ControlCount(d) - 1
    ensures CountControls(d.anchorChildren) > 0 ==>
              && r.controlsElsewhere == d.controlsElsewhere
              && HostNodes(r.anchorChildren) == HostNodes(d.anchorChildren)
    ensures CountControls(d.anchorChildren) == 0 ==> r.anchorChildren == d.anchorChildren
  {
    if CountControls(d.anchorChildren) > 0 then
      var rest := RemoveFirstControl(d.anchorChildren);
      assert NavigationContainer(d.dom).Some?;
      d.(anchorChildren := rest)
    else if d.controlsElsewhere > 0 then d.(controlsElsewhere := d.controlsElsewhere - 1)
    else d
  }

  /** A second injection fails and leaves exactly one control. */
  lemma InjectTwice(d: DocState, owner: string, repo: string, owner': string, repo': string)
    requires WellFormed(d) && ControlCount(d) <= 1
    ensures var (d1, _) := Inject(d, owner, repo);
            var (d2, ok2) := Inject(d1, owner', repo');
            !ok2 && d2 == d1 && ControlCount(d2) <= 1
  {
  }

  /** Injecting then removing leaves no control. */
  lemma InjectThenRemove(d: DocState, owner: string, repo: string)
    requires WellFormed(d) && ControlCount(d) <= 1
    ensures !ButtonExists(Remove(Inject(d, owner, repo).0))
  {
  }

  /** "At most one control" is kept by both operations. */
  lemma AtMostOneControl(d: DocState, owner: string, repo: string)
    requires WellFormed(d) && ControlCount(d) <= 1
    ensures ControlCount(Inject(d, owner, repo).0) <= 1
    ensures ControlCount(Remove(d)) <= 1
  {
  }

  /**
   * The live document. `insertBefore` and `remove` change the anchor's
   * child list in place.
   */
  class Document {
    var dom: Dom
    var anchorChildren: seq<Node>
    var controlsElsewhere: nat

    function State(): DocState
      reads this
    {
      DocState(dom, anchorChildren, controlsElsewhere)
    }

    ghost predicate Valid()
      reads this
    {
      WellFormed(State())
    }

    constructor (dom: Dom, anchorChildren: seq<Node>, controlsElsewhere: nat)
      requires WellFormed(DocState(dom, anchorChildren, controlsElsewhere))
      ensures Valid() && State() == DocState(dom, anchorChildren, controlsElsewhere)
    {
      this.dom := dom;
      this.anchorChildren := anchorChildren;
      this.controlsElsewhere := controlsElsewhere;
    }

    /** `zreadButtonExists()`. */
    method ZreadButtonExists() returns (b: bool)
      ensures b <==> ControlCount(State()) > 0
    {
      b := CountControls(anchorChildren) > 0 || controlsElsewhere > 0;
    }

    /** `injectZreadButton(owner, repo)`. */
    method InjectZreadButton(owner: string, repo: string) returns (ok: bool)
      requires Valid()
      modifies this
      ensures Valid()
      ensures (State(), ok) == Inject(old(State()), owner, repo)
    {
      var present := ZreadButtonExists();
      if present {
        return false;
      }
      var navContainer := FindNavigationContainer(dom);
      if navContainer.None? {
        return false;
      }
      var button := Control(ButtonHref(owner, repo));
      anchorChildren := [button] + anchorChildren;
      return true;
    }

    /** `removeZreadButton()`. */
    method RemoveZreadButton()
      requires Valid()
      modifies this
      ensures Valid()
      ensures State() == Remove(old(State()))
    {
      if CountControls(anchorChildren) > 0 {
        anchorChildren := RemoveFirstControl(anchorChildren);
      } else if controlsElsewhere > 0 {
        controlsElsewhere := controlsElsewhere - 1;
      }
    }

    /** The host page re-renders: a new document as far as the injector can
        see it. */
    method HostUpdate(next: DocState)
      requires WellFormed(next)
      modifies this
      ensures Valid() && State() == next
    {
      dom, anchorChildren, controlsElsewhere := next.dom, next.anchorChildren, next.controlsElsewhere;
    }
  }
}
