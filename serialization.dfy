/** The diagnostic helpers of the resolver (src/utils/serialization.ts):
    identifier display, the regex fallback for function names, the
    "Registered bindings:" listing, cycle detection over the child-request
    tree with its chain message, and the target-metadata listing. */
module Serialization {
  import opened Strings

  datatype Option<T> = None | Some(value: T)

  /** A JavaScript function object: `id` is its object identity, `name` its
      `name` property, `text` what its `toString()` returns. */
  datatype Func = Func(id: nat, name: string, text: string)

  /** A service identifier: a string key, a symbol (identity `id`, `text`
      being what its `toString()` returns) or a constructor function.
      Dafny's `==` on this type is JavaScript's `===`: strings compare by
      contents, symbols and functions by identity, so two constructors that
      share a `name` but not an `id` are different identifiers. This holds
      because one `id` stands for one object, whose `name` and `text` are
      then fixed. */
  datatype ServiceId = Str(key: string) | Sym(id: nat, text: string) | Ctor(f: Func)

  /** `getServiceIdentifierAsString`: the display form of an identifier. */
  function GetServiceIdentifierAsString(serviceIdentifier: ServiceId): (r: string)
    ensures serviceIdentifier.Ctor? ==> r == serviceIdentifier.f.name
    ensures serviceIdentifier.Sym? ==> r == serviceIdentifier.text
    ensures serviceIdentifier.Str? ==> r == serviceIdentifier.key
  {
    match serviceIdentifier
    case Ctor(f) => f.name
    case Sym(_, text) => text
    case Str(key) => key
  }

  // ---------------------------------------------------------------------
  // getFunctionName and its pattern /^function\s*([^\s(]+)/
  // ---------------------------------------------------------------------

  /** A character matched by `\s` in an ECMAScript regular expression
      (the WhiteSpace and LineTerminator code points). */
  predicate IsSpace(c: char)
  {
    c == '\t' || c == '\n' || c == '\U{B}' || c == '\U{C}' || c == '\r' || c == ' '
    || c == '\U{A0}' || c == '\U{1680}' || ('\U{2000}' <= c <= '\U{200A}')
    || c == '\U{2028}' || c == '\U{2029}' || c == '\U{202F}' || c == '\U{205F}'
    || c == '\U{3000}' || c == '\U{FEFF}'
  }

  /** A character of the class `[^\s(]`. */
  predicate IsNameChar(c: char)
  {
    !IsSpace(c) && c != '('
  }

  predicate AllSpace(s: string)
  {
    forall i :: 0 <= i < |s| ==> IsSpace(s[i])
  }

  predicate AllNameChars(s: string)
  {
    forall i :: 0 <= i < |s| ==> IsNameChar(s[i])
  }

  /** Length of the longest prefix of `s` that `\s*` consumes. */
  function LeadingSpaces(s: string): (n: nat)
    ensures n <= |s| && AllSpace(s[..n])
    ensures n < |s| ==> !IsSpace(s[n])
  {
    if s != [] && IsSpace(s[0]) then
      var n := 1 + LeadingSpaces(s[1..]);
      assert s[..n] == [s[0]] + s[1..][..n - 1];
      n
    else 0
  }

  /** Length of the longest prefix of `s` that `[^\s(]+` consumes (0 if none). */
  function LeadingNameChars(s: string): (n: nat)
    ensures n <= |s| && AllNameChars(s[..n])
    ensures n < |s| ==> !IsNameChar(s[n])
  {
    if s != [] && IsNameChar(s[0]) then
      var n := 1 + LeadingNameChars(s[1..]);
      assert s[..n] == [s[0]] + s[1..][..n - 1];
      n
    else 0
  }

  /** `/^function\s*([^\s(]+)/.exec(text)`: the first capture group, if the
      pattern matches. Greedy `\s*` followed by `[^\s(]` leaves no choice to
      backtrack into, so the match is the one computed here. */
  function MatchFunctionName(text: string): Option<string>
  {
    if |text| < 8 || text[..8] != "function" then None
    else
      var i := 8 + LeadingSpaces(text[8..]);
      var n := LeadingNameChars(text[i..]);
      if n == 0 then None else Some(text[i..i + n])
  }

  /** The pattern matches `text` with capture `cap` starting at index `i`:
      "function", then whitespace up to `i`, then the non-empty, maximal
      run `cap` of characters that are neither whitespace nor '('. */
  ghost predicate Captures(text: string, i: nat, cap: string)
  {
    && 8 <= i && i + |cap| <= |text|
    && text[..8] == "function"
    && AllSpace(text[8..i])
    && text[i..i + |cap|] == cap
    && cap != [] && AllNameChars(cap)
    && (i + |cap| < |text| ==> !IsNameChar(text[i + |cap|]))
  }

  /** `LeadingSpaces` is the only length that stops the run of whitespace. */
  lemma {:induction false} LeadingSpacesUnique(s: string, n: nat)
    requires n <= |s| && AllSpace(s[..n])
    requires n < |s| ==> !IsSpace(s[n])
    ensures LeadingSpaces(s) == n
  {
    if n > 0 {
      assert s[..n][0] == s[0];
      assert s[1..][..n - 1] == s[..n][1..];
      LeadingSpacesUnique(s[1..], n - 1);
    }
  }

  /** `LeadingNameChars` is the only length that stops the run of name characters. */
  lemma {:induction false} LeadingNameCharsUnique(s: string, n: nat)
    requires n <= |s| && AllNameChars(s[..n])
    requires n < |s| ==> !IsNameChar(s[n])
    ensures LeadingNameChars(s) == n
  {
    if n > 0 {
      assert s[..n][0] == s[0];
      assert s[1..][..n - 1] == s[..n][1..];
      LeadingNameCharsUnique(s[1..], n - 1);
    }
  }

  /** A decomposition determines the computed match. */
  lemma CapturesDeterminesMatch(text: string, i: nat, cap: string)
    requires Captures(text, i, cap)
    ensures MatchFunctionName(text) == Some(cap)
  {
    var s := text[8..];
    assert s[..i - 8] == text[8..i];
    assert cap[0] == text[i..i + |cap|][0] == text[i];
    assert i - 8 < |s| && s[i - 8] == text[i];
    LeadingSpacesUnique(s, i - 8);
    var t := text[i..];
    assert t[..|cap|] == cap;
    assert |cap| < |t| ==> t[|cap|] == text[i + |cap|];
    LeadingNameCharsUnique(t, |cap|);
  }

  /** The computed match comes with its decomposition. */
  lemma MatchHasCapture(text: string)
    requires MatchFunctionName(text).Some?
    ensures Captures(text, 8 + LeadingSpaces(text[8..]), MatchFunctionName(text).value)
  {
    var i := 8 + LeadingSpaces(text[8..]);
    var n := LeadingNameChars(text[i..]);
    assert text[8..i] == text[8..][..i - 8];
    assert text[i..i + n] == text[i..][..n];
  }

  /** What the pattern captures, stated as its regular-expression meaning:
      a capture is reported exactly when there is a decomposition, and the
      decomposition is then unique. */
  lemma MatchFunctionNameMeaning(text: string)
    ensures forall i: nat, cap :: Captures(text, i, cap) ==> MatchFunctionName(text) == Some(cap)
    ensures MatchFunctionName(text).Some? ==> exists i: nat :: Captures(text, i, MatchFunctionName(text).value)
  {
    forall i: nat, cap | Captures(text, i, cap)
      ensures MatchFunctionName(text) == Some(cap)
    {
      CapturesDeterminesMatch(text, i, cap);
    }
    if MatchFunctionName(text).Some? {
      MatchHasCapture(text);
    }
  }

  const AnonymousFunctionPrefix := "Anonymous function: "

  /** `getFunctionName`: the `name` property when it is truthy (non-empty),
      else the capture of the `function` pattern on the source text, else
      "Anonymous function: " followed by the source text. */
  function GetFunctionName(v: Func): string
  {
    if v.name != "" then v.name
    else
      match MatchFunctionName(v.text)
      case Some(name) => name
      case None => AnonymousFunctionPrefix + v.text
  }

  /** The three outcomes of `getFunctionName`, in terms of the pattern's meaning. */
  lemma GetFunctionNameCases(v: Func)
    ensures v.name != "" ==> GetFunctionName(v) == v.name
    ensures v.name == "" ==>
      (exists i: nat :: Captures(v.text, i, GetFunctionName(v)))
      || (GetFunctionName(v) == AnonymousFunctionPrefix + v.text
          && forall i: nat, cap :: !Captures(v.text, i, cap))
  {
    MatchFunctionNameMeaning(v.text);
  }

  // ---------------------------------------------------------------------
  // listRegisteredBindingsForServiceIdentifier
  // ---------------------------------------------------------------------

  /** A binding as this module sees it: the implementation type (absent for
      a constant-value binding) and the constraint's metadata, already
      rendered to the text a template literal would produce. */
  datatype Binding = Binding(implementationType: Option<Func>, metaData: Option<string>)

  /** `binding.constraint.metaData` is truthy: present and non-empty. */
  predicate HasMetaData(binding: Binding)
  {
    binding.metaData.Some? && binding.metaData.value != ""
  }

  /** The display name of a binding: "Object" for a constant value. */
  function BindingName(binding: Binding): string
  {
    match binding.implementationType
    case None => "Object"
    case Some(f) => GetFunctionName(f)
  }

  /** The listing line of one binding, without its leading newline: the
      name, then " - " and the metadata exactly when the metadata is truthy. */
  function BindingLine(binding: Binding): string
  {
    " " + BindingName(binding) + (if HasMetaData(binding) then " - " + binding.metaData.value else "")
  }

  /** The binding lines in lookup order. */
  function BindingLines(bindings: seq<Binding>): (lines: seq<string>)
    ensures |lines| == |bindings|
    ensures forall i :: 0 <= i < |bindings| ==> lines[i] == BindingLine(bindings[i])
  {
    if bindings == [] then []
    else BindingLines(bindings[..|bindings| - 1]) + [BindingLine(bindings[|bindings| - 1])]
  }

  const RegisteredBindingsHeader := "Registered bindings:"

  /** The listing: empty for no bindings, otherwise a newline, the header,
      and one newline-separated line per binding in lookup order. */
  function RegisteredBindingsList(bindings: seq<Binding>): string
  {
    if bindings == [] then ""
    else "\n" + Join([RegisteredBindingsHeader] + BindingLines(bindings), "\n")
  }

  /** Appending "\n " + name + suffix to a newline-led join appends one part. */
  lemma AppendLine(parts: seq<string>, before: string, name: string, suffix: string, after: string)
    requires parts != []
    requires before == "\n" + Join(parts, "\n")
    requires after == before + "\n " + name + suffix
    ensures after == "\n" + Join(parts + [" " + name + suffix], "\n")
  {
    JoinSnoc(parts, " " + name + suffix, "\n");
    assert "\n " == "\n" + " ";
  }

  /** One iteration of the listing loop appends the next binding's line. */
  lemma ListingStep(bindings: seq<Binding>, k: nat, before: string, name: string, after: string)
    requires k < |bindings|
    requires before == "\n" + Join([RegisteredBindingsHeader] + BindingLines(bindings[..k]), "\n")
    requires name == BindingName(bindings[k])
    requires after == before + "\n " + name
      + if HasMetaData(bindings[k]) then " - " + bindings[k].metaData.value else ""
    ensures after == "\n" + Join([RegisteredBindingsHeader] + BindingLines(bindings[..k + 1]), "\n")
  {
    var suffix := if HasMetaData(bindings[k]) then " - " + bindings[k].metaData.value else "";
    AppendLine([RegisteredBindingsHeader] + BindingLines(bindings[..k]), before, name, suffix, after);
    assert bindings[..k + 1][..k] == bindings[..k];
    assert BindingLines(bindings[..k + 1]) == BindingLines(bindings[..k]) + [" " + name + suffix];
    assert [RegisteredBindingsHeader] + BindingLines(bindings[..k + 1])
        == [RegisteredBindingsHeader] + BindingLines(bindings[..k]) + [" " + name + suffix];
  }

  /** `listRegisteredBindingsForServiceIdentifier`: `getBindings` is the
      container's lookup, applied once to the container and identifier. */
  method ListRegisteredBindingsForServiceIdentifier<C>(
    container: C,
    serviceIdentifier: string,
    getBindings: (C, string) -> seq<Binding>
  ) returns (registeredBindingsList: string)
    ensures registeredBindingsList == RegisteredBindingsList(getBindings(container, serviceIdentifier))
    ensures registeredBindingsList == "" <==> getBindings(container, serviceIdentifier) == []
  {
    registeredBindingsList := "";
    var registeredBindings := getBindings(container, serviceIdentifier);
    if |registeredBindings| != 0 {
      registeredBindingsList := "\n" + RegisteredBindingsHeader;
      assert registeredBindings[..0] == [];
      for k := 0 to |registeredBindings|
        invariant registeredBindingsList
          == "\n" + Join([RegisteredBindingsHeader] + BindingLines(registeredBindings[..k]), "\n")
      {
        var binding := registeredBindings[k];
        var name := "Object";
        if binding.implementationType.Some? {
          name := GetFunctionName(binding.implementationType.value);
        }
        ghost var before := registeredBindingsList;
        registeredBindingsList := registeredBindingsList + "\n " + name;
        if HasMetaData(binding) {
          registeredBindingsList := registeredBindingsList + " - " + binding.metaData.value;
        }
        ListingStep(registeredBindings, k, before, name, registeredBindingsList);
      }
      assert registeredBindings[..|registeredBindings|] == registeredBindings;
    }
  }

  lemma HeaderFree()
    ensures Free(RegisteredBindingsHeader, '\n')
  {
  }

  /** A newline, then the header and `lines` joined by newlines, reads back
      as an empty piece, the header, and `lines`. */
  lemma HeaderJoinLines(lines: seq<string>)
    requires forall i :: 0 <= i < |lines| ==> Free(lines[i], '\n')
    ensures Split("\n" + Join([RegisteredBindingsHeader] + lines, "\n"), '\n')
         == ["", RegisteredBindingsHeader] + lines
  {
    HeaderFree();
    SplitLeadingJoinHead(RegisteredBindingsHeader, lines, '\n');
  }

  /** Neither the binding's name nor its metadata holds a newline. */
  predicate SingleLine(binding: Binding)
  {
    Free(BindingName(binding), '\n')
    && (binding.metaData.Some? ==> Free(binding.metaData.value, '\n'))
  }

  /** The line of a single-line binding holds no newline. */
  lemma BindingLineFree(binding: Binding)
    requires SingleLine(binding)
    ensures Free(BindingLine(binding), '\n')
  {
    var name := BindingName(binding);
    FreeAppend(" ", name, '\n');
    if HasMetaData(binding) {
      FreeAppend(" - ", binding.metaData.value, '\n');
      FreeAppend(" " + name, " - " + binding.metaData.value, '\n');
    } else {
      FreeAppend(" " + name, "", '\n');
    }
  }

  /** Read back line by line, a non-empty listing is an empty line, the
      header, and exactly the binding lines in lookup order, when no name
      or metadata holds a newline. */
  lemma RegisteredBindingsListLines(bindings: seq<Binding>)
    requires bindings != []
    requires forall i :: 0 <= i < |bindings| ==> SingleLine(bindings[i])
    ensures Split(RegisteredBindingsList(bindings), '\n')
         == ["", RegisteredBindingsHeader] + BindingLines(bindings)
  {
    var lines := BindingLines(bindings);
    forall i | 0 <= i < |lines| ensures Free(lines[i], '\n') {
      BindingLineFree(bindings[i]);
    }
    HeaderJoinLines(lines);
  }

  // ---------------------------------------------------------------------
  // Requests: alreadyDependencyChain and dependencyChainToString
  // ---------------------------------------------------------------------

  /** A request seen from below: its identifier and its parent link
      (None for the root). */
  datatype Request = Request(serviceIdentifier: ServiceId, parentRequest: Option<Request>)

  /** Number of parent links from the request up to the root. */
  function Depth(request: Request): nat
  {
    match request.parentRequest
    case None => 0
    case Some(parent) => 1 + Depth(parent)
  }

  /** The identifiers of the strict ancestors, root first. */
  function Ancestors(request: Request): (ids: seq<ServiceId>)
    ensures |ids| == Depth(request)
  {
    match request.parentRequest
    case None => []
    case Some(parent) => Ancestors(parent) + [parent.serviceIdentifier]
  }

  /** The identifiers from the root down to the request itself. */
  function Path(request: Request): seq<ServiceId>
  {
    Ancestors(request) + [request.serviceIdentifier]
  }

  /** `alreadyDependencyChain`: walks the parent links, comparing each
      parent's identifier (never the request's own) with `serviceIdentifier`. */
  function AlreadyDependencyChain(request: Request, serviceIdentifier: ServiceId): bool
  {
    match request.parentRequest
    case None => false
    case Some(parent) =>
      if parent.serviceIdentifier == serviceIdentifier then true
      else AlreadyDependencyChain(parent, serviceIdentifier)
  }

  /** The walk answers exactly "is the identifier among the strict ancestors". */
  lemma {:induction false} AlreadyDependencyChainMeaning(request: Request, serviceIdentifier: ServiceId)
    ensures AlreadyDependencyChain(request, serviceIdentifier) <==> serviceIdentifier in Ancestors(request)
  {
    match request.parentRequest
    case None =>
    case Some(parent) =>
      AlreadyDependencyChainMeaning(parent, serviceIdentifier);
  }

  /** The display strings of a list of identifiers. */
  function DisplayAll(ids: seq<ServiceId>): (r: seq<string>)
    ensures |r| == |ids|
  {
    seq(|ids|, i requires 0 <= i < |ids| => GetServiceIdentifierAsString(ids[i]))
  }

  /** `_createStringArr`: pushes the display string of each request on the
      way up to the root onto `result`. */
  function CreateStringArr(req: Request, result: seq<string>): seq<string>
  {
    var result' := result + [GetServiceIdentifierAsString(req.serviceIdentifier)];
    match req.parentRequest
    case Some(parent) => CreateStringArr(parent, result')
    case None => result'
  }

  /** The accumulated array is the root-first path, reversed, after `result`. */
  lemma {:induction false} CreateStringArrPath(req: Request, result: seq<string>)
    ensures CreateStringArr(req, result) == result + Reverse(DisplayAll(Path(req)))
  {
    var d := GetServiceIdentifierAsString(req.serviceIdentifier);
    match req.parentRequest
    case None =>
      assert DisplayAll(Path(req)) == [d];
    case Some(parent) =>
      CreateStringArrPath(parent, result + [d]);
      assert DisplayAll(Path(req)) == DisplayAll(Path(parent)) + [d];
      ReverseAppend(DisplayAll(Path(parent)), [d]);
  }

  const ChainSeparator := " --> "

  /** `dependencyChainToString`: the display strings from the root down to
      the request, joined by " --> ". */
  function DependencyChainToString(request: Request): (r: string)
    ensures r == Join(DisplayAll(Path(request)), ChainSeparator)
  {
    CreateStringArrPath(request, []);
    ReverseReverse(DisplayAll(Path(request)));
    assert [] + Reverse(DisplayAll(Path(request))) == Reverse(DisplayAll(Path(request)));
    Join(Reverse(CreateStringArr(request, [])), ChainSeparator)
  }

  /** The root reached by following parent links. */
  function RootOf(request: Request): Request
  {
    match request.parentRequest
    case None => request
    case Some(parent) => RootOf(parent)
  }

  /** A request at depth k renders k + 1 identifiers, the root's first and
      the request's own last. */
  lemma {:induction false} PathShape(request: Request)
    ensures |Path(request)| == Depth(request) + 1
    ensures Path(request)[0] == RootOf(request).serviceIdentifier
    ensures Path(request)[Depth(request)] == request.serviceIdentifier
  {
    match request.parentRequest
    case None =>
    case Some(parent) =>
      PathShape(parent);
      assert Path(request) == Path(parent) + [request.serviceIdentifier];
  }

  // ---------------------------------------------------------------------
  // circularDependencyToException
  // ---------------------------------------------------------------------

  /** A request seen from above: its identifier and its child requests in order. */
  datatype PlanNode = PlanNode(serviceIdentifier: ServiceId, childRequests: seq<PlanNode>)

  /** Either the traversal returns normally, or it throws with `message`. */
  datatype Outcome = Pass | Fail(message: string)

  /** A request whose identifier recurs among its strict ancestors. */
  predicate IsCircular(request: Request)
  {
    AlreadyDependencyChain(request, request.serviceIdentifier)
  }

  /** The thrown message: the CIRCULAR_DEPENDENCY text, a space, the chain. */
  function CircularMessage(circularDependency: string, request: Request): string
  {
    circularDependency + " " + DependencyChainToString(request)
  }

  /** The request, with parent links, of the `i`-th child of a node whose
      own request is `request`. */
  function ChildRequest(children: seq<PlanNode>, i: nat, request: Request): Request
    requires i < |children|
  {
    Request(children[i].serviceIdentifier, Some(request))
  }

  /** Every strict descendant of `node` (whose parent link is `parent`), as
      a request with its parent links, in pre-order, children left to right. */
  function Descendants(node: PlanNode, parent: Option<Request>): seq<Request>
    decreases node, 1
  {
    DescendantsOf(node.childRequests, Request(node.serviceIdentifier, parent))
  }

  /** The pre-order of the subtrees `children`, all children of `request`. */
  function DescendantsOf(children: seq<PlanNode>, request: Request): seq<Request>
    decreases children, 0
  {
    if children == [] then []
    else
      var last := |children| - 1;
      DescendantsOf(children[..last], request)
        + [ChildRequest(children, last, request)]
        + Descendants(children[last], Some(request))
  }

  /** The outcome of visiting `requests` in order and throwing at the first
      circular one. */
  function FirstCircular(circularDependency: string, requests: seq<Request>): Outcome
  {
    if requests == [] then Pass
    else if IsCircular(requests[0]) then Fail(CircularMessage(circularDependency, requests[0]))
    else FirstCircular(circularDependency, requests[1..])
  }

  lemma {:induction false} FirstCircularAppend(circularDependency: string, a: seq<Request>, b: seq<Request>)
    ensures FirstCircular(circularDependency, a + b)
         == if FirstCircular(circularDependency, a).Pass? then FirstCircular(circularDependency, b)
            else FirstCircular(circularDependency, a)
  {
    if a != [] {
      assert (a + b)[0] == a[0];
      assert (a + b)[1..] == a[1..] + b;
      FirstCircularAppend(circularDependency, a[1..], b);
    } else {
      assert a + b == b;
    }
  }

  lemma {:induction false} DescendantsOfPrefix(children: seq<PlanNode>, j: nat, request: Request)
    requires j <= |children|
    ensures DescendantsOf(children[..j], request) <= DescendantsOf(children, request)
    decreases |children|
  {
    if j < |children| {
      var last := |children| - 1;
      DescendantsOfPrefix(children[..last], j, request);
      assert children[..last][..j] == children[..j];
    } else {
      assert children[..j] == children;
    }
  }

  /** A failure found in a prefix is the failure of the whole sequence. */
  lemma FirstCircularPrefix(circularDependency: string, a: seq<Request>, b: seq<Request>)
    requires a <= b
    requires FirstCircular(circularDependency, a).Fail?
    ensures FirstCircular(circularDependency, b) == FirstCircular(circularDependency, a)
  {
    assert b == a + b[|a|..];
    FirstCircularAppend(circularDependency, a, b[|a|..]);
  }

  /** `circularDependencyToException`: for each child in order, throw if its
      identifier recurs among its ancestors, else recurse into it. The
      request of `node` is `Request(node.serviceIdentifier, parent)`. */
  method CircularDependencyToException(circularDependency: string, node: PlanNode, parent: Option<Request>)
    returns (outcome: Outcome)
    ensures outcome == FirstCircular(circularDependency, Descendants(node, parent))
    decreases node
  {
    var request := Request(node.serviceIdentifier, parent);
    var children := node.childRequests;
    for i := 0 to |children|
      invariant FirstCircular(circularDependency, DescendantsOf(children[..i], request)) == Pass
    {
      var childRequest := Request(children[i].serviceIdentifier, Some(request));
      var before := DescendantsOf(children[..i], request);
      var below := Descendants(children[i], Some(request));
      assert children[..i + 1][..i] == children[..i];
      assert DescendantsOf(children[..i + 1], request) == before + [childRequest] + below;
      DescendantsOfPrefix(children, i + 1, request);
      FirstCircularAppend(circularDependency, before, [childRequest] + below);
      assert before + [childRequest] + below == before + ([childRequest] + below);
      if AlreadyDependencyChain(childRequest, childRequest.serviceIdentifier) {
        var services := DependencyChainToString(childRequest);
        FirstCircularPrefix(circularDependency, DescendantsOf(children[..i + 1], request), Descendants(node, parent));
        return Fail(circularDependency + " " + services);
      } else {
        var sub := CircularDependencyToException(circularDependency, children[i], Some(request));
        assert ([childRequest] + below)[1..] == below;
        if sub.Fail? {
          FirstCircularPrefix(circularDependency, DescendantsOf(children[..i + 1], request), Descendants(node, parent));
          return sub;
        }
      }
    }
    assert children[..|children|] == children;
    outcome := Pass;
  }

  /** No request in the sequence is circular. */
  predicate NoneCircular(requests: seq<Request>)
  {
    forall k :: 0 <= k < |requests| ==> !IsCircular(requests[k])
  }

  /** The ordered walk passes exactly when no request is circular. */
  lemma {:induction false} FirstCircularPass(circularDependency: string, requests: seq<Request>)
    ensures FirstCircular(circularDependency, requests) == Pass <==> NoneCircular(requests)
  {
    if requests != [] {
      FirstCircularPass(circularDependency, requests[1..]);
      if !IsCircular(requests[0]) {
        forall k | 1 <= k < |requests| ensures requests[k] == requests[1..][k - 1] { }
      }
    }
  }

  /** A failing walk names the first circular request. */
  lemma {:induction false} FirstCircularFail(circularDependency: string, requests: seq<Request>)
    requires FirstCircular(circularDependency, requests).Fail?
    ensures exists k :: 0 <= k < |requests| && IsCircular(requests[k]) && NoneCircular(requests[..k])
              && FirstCircular(circularDependency, requests).message == CircularMessage(circularDependency, requests[k])
  {
    if IsCircular(requests[0]) {
      assert NoneCircular(requests[..0]);
    } else {
      var rest := requests[1..];
      FirstCircularFail(circularDependency, rest);
      var k :| 0 <= k < |rest| && IsCircular(rest[k]) && NoneCircular(rest[..k])
        && FirstCircular(circularDependency, rest).message == CircularMessage(circularDependency, rest[k]);
      assert requests[..k + 1] == [requests[0]] + rest[..k];
      NoneCircularAppend([requests[0]], rest[..k]);
      assert requests[k + 1] == rest[k];
      assert FirstCircular(circularDependency, requests) == FirstCircular(circularDependency, rest);
      assert 0 <= k + 1 < |requests| && IsCircular(requests[k + 1]) && NoneCircular(requests[..k + 1]);
    }
  }

  /** What the ordered walk reports: nothing exactly when no request is
      circular, and otherwise the message of the first circular one. */
  lemma FirstCircularMeaning(circularDependency: string, requests: seq<Request>)
    ensures FirstCircular(circularDependency, requests) == Pass <==> NoneCircular(requests)
    ensures FirstCircular(circularDependency, requests).Fail? ==>
      exists k :: 0 <= k < |requests| && IsCircular(requests[k]) && NoneCircular(requests[..k])
        && FirstCircular(circularDependency, requests).message == CircularMessage(circularDependency, requests[k])
  {
    FirstCircularPass(circularDependency, requests);
    if FirstCircular(circularDependency, requests).Fail? {
      FirstCircularFail(circularDependency, requests);
    }
  }

  /** The tree below `node` has no request whose identifier recurs among its
      strict ancestors: the independent, recursive statement of "acyclic". */
  predicate Acyclic(node: PlanNode, parent: Option<Request>)
    decreases node
  {
    var request := Request(node.serviceIdentifier, parent);
    forall i :: 0 <= i < |node.childRequests| ==>
      !IsCircular(ChildRequest(node.childRequests, i, request))
      && Acyclic(node.childRequests[i], Some(request))
  }

  lemma {:induction false} NoneCircularAppend(a: seq<Request>, b: seq<Request>)
    ensures NoneCircular(a + b) <==> NoneCircular(a) && NoneCircular(b)
  {
    if NoneCircular(a) && NoneCircular(b) {
      forall k | 0 <= k < |a + b| ensures !IsCircular((a + b)[k]) {
        if k >= |a| { assert (a + b)[k] == b[k - |a|]; }
      }
    }
    if NoneCircular(a + b) {
      forall k | 0 <= k < |a| ensures !IsCircular(a[k]) {
        assert (a + b)[k] == a[k];
      }
      forall k | 0 <= k < |b| ensures !IsCircular(b[k]) {
        assert (a + b)[|a| + k] == b[k];
      }
    }
  }

  lemma {:induction false} DescendantsAcyclic(node: PlanNode, parent: Option<Request>)
    ensures NoneCircular(Descendants(node, parent)) <==> Acyclic(node, parent)
    decreases node, 1
  {
    var request := Request(node.serviceIdentifier, parent);
    DescendantsOfAcyclic(node.childRequests, |node.childRequests|, request);
    assert node.childRequests[..|node.childRequests|] == node.childRequests;
  }

  /** The first `j` subtrees are acyclic exactly when their pre-order is. */
  lemma {:induction false} DescendantsOfAcyclic(children: seq<PlanNode>, j: nat, request: Request)
    requires j <= |children|
    ensures NoneCircular(DescendantsOf(children[..j], request)) <==>
      forall i :: 0 <= i < j ==>
        !IsCircular(ChildRequest(children, i, request)) && Acyclic(children[i], Some(request))
    decreases children, 0, j
  {
    if j > 0 {
      var prefix := children[..j];
      var last := j - 1;
      assert prefix[..last] == children[..last];
      assert prefix[last] == children[last];
      DescendantsOfAcyclic(children, last, request);
      DescendantsAcyclic(children[last], Some(request));
      var a := DescendantsOf(children[..last], request);
      var c := [ChildRequest(children, last, request)];
      var d := Descendants(children[last], Some(request));
      assert ChildRequest(prefix, last, request) == ChildRequest(children, last, request);
      assert DescendantsOf(prefix, request) == a + c + d;
      NoneCircularAppend(a + c, d);
      NoneCircularAppend(a, c);
      assert c[0] == ChildRequest(children, last, request);
    }
  }

  /** Cycle detection from any node: it returns normally exactly when the
      tree below is acyclic; otherwise it throws the message built from the
      first circular request in pre-order, which is the root-to-node chain. */
  lemma CircularDependencyMeaning(circularDependency: string, node: PlanNode, parent: Option<Request>)
    ensures FirstCircular(circularDependency, Descendants(node, parent)) == Pass <==> Acyclic(node, parent)
    ensures FirstCircular(circularDependency, Descendants(node, parent)).Fail? ==>
      var ds := Descendants(node, parent);
      exists k :: 0 <= k < |ds| && IsCircular(ds[k]) && NoneCircular(ds[..k])
        && (FirstCircular(circularDependency, ds).message
            == circularDependency + " " + Join(DisplayAll(Path(ds[k])), ChainSeparator))
  {
    FirstCircularMeaning(circularDependency, Descendants(node, parent));
    DescendantsAcyclic(node, parent);
  }

  // ---------------------------------------------------------------------
  // listMetadataForTarget
  // ---------------------------------------------------------------------

  /** An injection point as this module sees it: the answers of `isTagged()`
      and `isNamed()`, the named tag and the custom tags, each tag already
      rendered by its `toString()`. */
  datatype Target = Target(
    isTagged: bool,
    isNamed: bool,
    namedTag: Option<string>,
    customTags: Option<seq<string>>)

  /** The tag texts in the order they are listed: the named tag, then the
      custom tags in stored order. */
  function TagTexts(target: Target): seq<string>
  {
    (match target.namedTag case Some(tag) => [tag] case None => [])
    + (match target.customTags case Some(tags) => tags case None => [])
  }

  /** The metadata listing: the identifier line alone for a plain target;
      otherwise the identifier line, then the identifier, " - ", and every
      tag text followed by a newline. */
  function MetadataForTarget(serviceIdentifierString: string, target: Target): string
  {
    if target.isTagged || target.isNamed then
      " " + serviceIdentifierString + "\n " + serviceIdentifierString + " - " + Terminated(TagTexts(target), '\n')
    else " " + serviceIdentifierString
  }

  /** `listMetadataForTarget`. */
  method ListMetadataForTarget(serviceIdentifierString: string, target: Target) returns (r: string)
    ensures r == MetadataForTarget(serviceIdentifierString, target)
    ensures r == " " + serviceIdentifierString <==> !(target.isTagged || target.isNamed)
  {
    if target.isTagged || target.isNamed {
      var m := "";
      var named: seq<string> := [];
      if target.namedTag.Some? {
        m := m + target.namedTag.value + "\n";
        named := [target.namedTag.value];
        assert [target.namedTag.value][1..] == [];
      }
      if target.customTags.Some? {
        var otherTags := target.customTags.value;
        for i := 0 to |otherTags|
          invariant m == Terminated(named + otherTags[..i], '\n')
        {
          TerminatedSnoc(named + otherTags[..i], otherTags[i], '\n');
          assert named + otherTags[..i + 1] == named + otherTags[..i] + [otherTags[i]];
          m := m + otherTags[i] + "\n";
        }
        assert otherTags[..|otherTags|] == otherTags;
      } else {
        assert named + [] == named;
      }
      assert named + (match target.customTags case Some(tags) => tags case None => []) == TagTexts(target);
      assert m == Terminated(TagTexts(target), '\n');
      r := " " + serviceIdentifierString + "\n " + serviceIdentifierString + " - " + m;
      assert |r| > |" " + serviceIdentifierString|;
    } else {
      r := " " + serviceIdentifierString;
    }
  }

  /** Read back line by line, a tagged or named target's listing is the
      identifier line, then the identifier and " - " joined to the first
      tag text, then each further tag text once, in order, and a final
      empty line (when neither the identifier nor a tag holds a newline). */
  lemma MetadataForTargetLines(serviceIdentifierString: string, target: Target)
    requires target.isTagged || target.isNamed
    requires Free(serviceIdentifierString, '\n')
    requires forall i :: 0 <= i < |TagTexts(target)| ==> Free(TagTexts(target)[i], '\n')
    ensures var tags := TagTexts(target);
      var head := " " + serviceIdentifierString + " - ";
      Split(MetadataForTarget(serviceIdentifierString, target), '\n')
        == [" " + serviceIdentifierString]
           + if tags == [] then [head] else [head + tags[0]] + tags[1..] + [""]
  {
    var tags := TagTexts(target);
    var id := " " + serviceIdentifierString;
    var head := id + " - ";
    var rest := head + Terminated(tags, '\n');
    assert MetadataForTarget(serviceIdentifierString, target) == id + ['\n'] + rest;
    SplitCons(id, '\n', rest);
    if tags == [] {
      assert rest == head;
      SplitFree(head, '\n');
    } else {
      SplitTerminated(tags[1..], '\n');
      assert rest == (head + tags[0]) + ['\n'] + Terminated(tags[1..], '\n');
      SplitCons(head + tags[0], '\n', Terminated(tags[1..], '\n'));
    }
  }
}
