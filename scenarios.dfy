/** Worked scenarios of the diagnostic helpers, stated on the model. */
module Scenarios {
  import opened Strings
  import opened Serialization

  const A := Str("A")
  const B := Str("B")
  const C := Str("C")

  /** A plan A -> B -> C has no circular request. */
  lemma AcyclicChainPasses(circularDependency: string)
    ensures FirstCircular(circularDependency,
      Descendants(PlanNode(A, [PlanNode(B, [PlanNode(C, [])])]), None)) == Pass
  {
    var c := PlanNode(C, []);
    var b := PlanNode(B, [c]);
    var a := PlanNode(A, [b]);
    CircularDependencyMeaning(circularDependency, a, None);
    var ra := Request(A, None);
    var rb := Request(B, Some(ra));
    var rc := Request(C, Some(rb));
    assert !IsCircular(rb) && !IsCircular(rc);
    assert Acyclic(c, Some(rb));
    assert Acyclic(b, Some(ra));
  }

  /** The requests of the plan A -> B -> A, in visiting order. */
  lemma RepeatedIdentifierRequests()
    ensures var ra := Request(A, None);
      var rb := Request(B, Some(ra));
      Descendants(PlanNode(A, [PlanNode(B, [PlanNode(A, [])])]), None)
        == [rb, Request(A, Some(rb))]
  {
    var ra := Request(A, None);
    var rb := Request(B, Some(ra));
    var ra2 := Request(A, Some(rb));
    var a2 := PlanNode(A, []);
    var b := PlanNode(B, [a2]);
    assert Descendants(a2, Some(rb)) == [];
    assert [a2][..0] == [] && [b][..0] == [];
    assert ChildRequest([a2], 0, rb) == ra2;
    assert DescendantsOf([a2], rb) == DescendantsOf([], rb) + [ra2] + Descendants(a2, Some(rb));
    assert Descendants(b, Some(ra)) == [ra2];
    assert ChildRequest([b], 0, ra) == rb;
    assert DescendantsOf([b], ra) == DescendantsOf([], ra) + [rb] + Descendants(b, Some(ra));
  }

  /** The chain printed for the second request for A. */
  lemma RepeatedIdentifierChain()
    ensures DependencyChainToString(Request(A, Some(Request(B, Some(Request(A, None))))))
         == "A" + ChainSeparator + "B" + ChainSeparator + "A"
  {
    var ra2 := Request(A, Some(Request(B, Some(Request(A, None)))));
    assert Path(ra2) == [A, B, A];
    assert DisplayAll([A, B, A]) == ["A", "B", "A"];
    assert ["A", "B", "A"][1..] == ["B", "A"] && ["B", "A"][1..] == ["A"];
    assert Join(["B", "A"], ChainSeparator) == "B" + ChainSeparator + "A";
    assert Join(["A", "B", "A"], ChainSeparator) == "A" + ChainSeparator + Join(["B", "A"], ChainSeparator);
  }

  /** A plan A -> B -> A throws with the chain "A --> B --> A". */
  lemma RepeatedIdentifierFails(circularDependency: string)
    ensures FirstCircular(circularDependency,
      Descendants(PlanNode(A, [PlanNode(B, [PlanNode(A, [])])]), None))
      == Fail(circularDependency + " " + "A" + ChainSeparator + "B" + ChainSeparator + "A")
  {
    var rb := Request(B, Some(Request(A, None)));
    var ra2 := Request(A, Some(rb));
    RepeatedIdentifierRequests();
    RepeatedIdentifierChain();
    assert [rb, ra2][1..] == [ra2];
    assert !IsCircular(rb) && IsCircular(ra2);
  }

  /** Two constructors that share the name "Katana" are different identifiers:
      a plan that asks for one inside the other is not circular. */
  lemma SameNameIsNotSameIdentifier(circularDependency: string, text: string)
    ensures var first := Ctor(Func(1, "Katana", text));
      var second := Ctor(Func(2, "Katana", text));
      FirstCircular(circularDependency,
        Descendants(PlanNode(first, [PlanNode(second, [])]), None)) == Pass
  {
    var first := Ctor(Func(1, "Katana", text));
    var second := Ctor(Func(2, "Katana", text));
    var r := Request(second, Some(Request(first, None)));
    assert Descendants(PlanNode(second, []), Some(Request(first, None))) == [];
    var root := Request(first, None);
    assert [PlanNode(second, [])][..0] == [];
    assert ChildRequest([PlanNode(second, [])], 0, root) == r;
    assert DescendantsOf([PlanNode(second, [])], root)
        == DescendantsOf([], root) + [r] + Descendants(PlanNode(second, []), Some(root));
    assert Descendants(PlanNode(first, [PlanNode(second, [])]), None) == [r];
    assert first != second;
    assert !AlreadyDependencyChain(root, second);
    assert !IsCircular(r);
    assert [r][1..] == [];
  }

  /** Proof helper that models nothing: the listing for a header and two
      lines, written as one concatenation. */
  lemma HeaderAndTwoLines(l1: string, l2: string)
    ensures "\n" + Join([RegisteredBindingsHeader, l1, l2], "\n")
         == "\n" + RegisteredBindingsHeader + "\n" + l1 + "\n" + l2
  {
    var parts := [RegisteredBindingsHeader, l1, l2];
    assert parts[1..] == [l1, l2];
    assert parts[1..][1..] == [l2];
    assert Join(parts[1..], "\n") == l1 + "\n" + l2;
  }

  /** Proof helper that models nothing: regroups the listing's pieces,
      on arbitrary strings, so the solver need not do it on literals. */
  lemma Regroup(nl: string, header: string, sp: string, name: string, dash: string,
                metaData: string, tail: string)
    ensures nl + header + nl + (sp + name + dash + metaData) + nl + (sp + tail)
         == (nl + header) + (nl + sp) + name + dash + metaData + (nl + sp) + tail
  {
  }

  /** The line of a named implementation with metadata. */
  lemma NamedBindingLine(name: string, text: string, metaData: string)
    requires name != "" && metaData != ""
    ensures BindingLine(Binding(Some(Func(1, name, text)), Some(metaData)))
         == " " + name + " - " + metaData
  {
    assert GetFunctionName(Func(1, name, text)) == name;
  }

  /** Lines of a two-element binding list. */
  lemma TwoLines(b1: Binding, b2: Binding)
    ensures BindingLines([b1, b2]) == [BindingLine(b1), BindingLine(b2)]
  {
    assert [b1, b2][..1] == [b1];
    assert [b1][..0] == [];
  }

  /** A binding of a named implementation with metadata, then a
      constant-value binding without metadata. */
  lemma TwoBindingsListing(name: string, text: string, metaData: string)
    requires name != "" && metaData != ""
    ensures RegisteredBindingsList([
        Binding(Some(Func(1, name, text)), Some(metaData)),
        Binding(None, None)])
      == "\n" + RegisteredBindingsHeader + "\n " + name + " - " + metaData + "\n " + "Object"
  {
    var b1 := Binding(Some(Func(1, name, text)), Some(metaData));
    var b2 := Binding(None, None);
    var l1 := " " + name + " - " + metaData;
    NamedBindingLine(name, text, metaData);
    assert BindingLine(b2) == " " + "Object";
    TwoLines(b1, b2);
    var parts := [RegisteredBindingsHeader] + BindingLines([b1, b2]);
    assert parts == [RegisteredBindingsHeader, l1, " " + "Object"];
    HeaderAndTwoLines(l1, " " + "Object");
    Regroup("\n", RegisteredBindingsHeader, " ", name, " - ", metaData, "Object");
    assert "\n" + " " == "\n ";
  }

  /** A named target with tag text "throwable". */
  lemma NamedTargetListing()
    ensures MetadataForTarget("Weapon", Target(false, true, Some("throwable"), None))
         == " Weapon\n Weapon - throwable\n"
  {
    assert TagTexts(Target(false, true, Some("throwable"), None)) == ["throwable"];
    assert Terminated(["throwable"], '\n') == "throwable\n";
  }

  /** An anonymous function written with the `function` keyword is named by
      the pattern. */
  lemma FunctionKeywordName()
    ensures GetFunctionName(Func(1, "", "function Katana() {}")) == "Katana"
  {
    var text := "function Katana() {}";
    assert text[..8] == "function";
    assert text[8..9] == " ";
    assert text[9..15] == "Katana";
    assert AllNameChars("Katana");
    assert text[15] == '(';
    CapturesDeterminesMatch(text, 9, "Katana");
  }

  /** An arrow function matches no `function` pattern and falls back to its text. */
  lemma ArrowFunctionName()
    ensures GetFunctionName(Func(2, "", "() => 1")) == "Anonymous function: () => 1"
  {
  }
}
