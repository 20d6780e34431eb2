/** Reading a step back from its XML element (IecStep(Node) and loadFromXml):
    the id attribute, one pass over the children with a digit-guarded parse
    per counter, and the chromosome children, which are filed as solutions or,
    failing that, as selected. */
module IecStepLoad {
  import opened Common
  import opened Text
  import opened IecStep

  /** Why reading a step throws. */
  datatype LoadFailure =
    | MissingId                    // attributes but no id: getNamedItem gives null
    | TooLarge(tag: string)        // digits Long.parseLong or Integer.parseInt reject
    | UnknownAction(name: string)  // a name StepType.valueOf rejects

  /** The fields loadFromXml sets. A chromosome is the element it is built
      from; timing is not read back. */
  datatype Loaded = Loaded(id: Option<int>, action: Option<StepType>, evaluationCount: Option<int>,
                           champFitness: Option<int>, archiveSize: Option<int>, speciesSize: Option<int>,
                           population: seq<XmlNode>, solutions: seq<XmlNode>, selected: seq<XmlNode>,
                           unselected: seq<XmlNode>)

  /** A step as the field initialisers leave it before loadFromXml runs. */
  const Empty: Loaded := Loaded(None, None, None, None, None, None, [], [], [], [])

  /** The id: only read when the element has attributes; then the id
      attribute must be present, and it is parsed only when it is all
      digits. */
  function LoadId(step: XmlNode): (r: Result<Option<int>, LoadFailure>)
    ensures step.attributes == [] ==> r == Success(None)
    ensures r == Failure(MissingId) <==> step.attributes != [] && NamedItem(step.attributes, StepIdTag).None?
    ensures r.Success? && r.value.Some? ==>
              && NamedItem(step.attributes, StepIdTag).Some?
              && IsDigits(NamedItem(step.attributes, StepIdTag).value)
              && DigitsValue(NamedItem(step.attributes, StepIdTag).value) == r.value.value <= LongMax
  {
    if step.attributes == [] then Success(None)
    else
      match NamedItem(step.attributes, StepIdTag)
      case None => Failure(MissingId)
      case Some(text) =>
        match ParseDigits(text, LongMax)
        case NotANumber => Success(None)
        case Overflow => Failure(TooLarge(StepIdTag))
        case Number(n) => Success(Some(n))
  }

  /** A counter element: a digit string within int range replaces the value,
      any other text leaves it, too many digits throw. */
  function LoadCounter(current: Option<int>, tag: string, text: string): (r: Result<Option<int>, LoadFailure>)
    ensures r.Failure? <==> IsDigits(text) && ParseDigits(text, IntMax).Overflow?
    ensures r.Failure? ==> r.error == TooLarge(tag)
    ensures r.Success? ==> r.value == (if IsDigits(text) then Some(ParseDigits(text, IntMax).value) else current)
  {
    match ParseDigits(text, IntMax)
    case NotANumber => Success(current)
    case Overflow => Failure(TooLarge(tag))
    case Number(n) => Success(Some(n))
  }

  /** StepType.valueOf: the constant of that exact name, or a throw. */
  function LoadAction(text: string, known: set<string>): (r: Result<Option<StepType>, LoadFailure>)
    ensures r.Success? <==> text in known
    ensures r.Success? ==> r.value == Some(StepType(text))
    ensures r.Failure? ==> r.error == UnknownAction(text)
  {
    if text in known then Success(Some(StepType(text))) else Failure(UnknownAction(text))
  }

  predicate IsChromosome(node: XmlNode)
  {
    EqualsIgnoreCase(node.name, ChromosomeTag)
  }

  /** Every one of the nodes is a chromosome element. */
  predicate AllChromosomes(nodes: seq<XmlNode>)
  {
    forall i :: 0 <= i < |nodes| ==> IsChromosome(nodes[i])
  }

  /** The chromosome children among the step's children, in document order. */
  function ChromosomeChildren(children: seq<XmlNode>): (r: seq<XmlNode>)
    ensures |r| <= |children|
  {
    if children == [] then []
    else (if IsChromosome(children[0]) then [children[0]] else []) + ChromosomeChildren(children[1..])
  }

  /** A list of chromosome elements is its own chromosome children. */
  lemma {:induction false} AllChromosomeChildren(children: seq<XmlNode>)
    requires AllChromosomes(children)
    ensures ChromosomeChildren(children) == children
    decreases |children|
  {
    if children != [] {
      AllChromosomeChildren(children[1..]);
      assert [children[0]] + children[1..] == children;
    }
  }

  /** The chromosomes of pop whose isSolution() is want, in order. */
  function Filter(pop: seq<XmlNode>, isSolution: XmlNode -> bool, want: bool): (r: seq<XmlNode>)
    ensures |r| <= |pop|
  {
    if pop == [] then []
    else
      var n := |pop| - 1;
      Filter(pop[..n], isSolution, want) + (if isSolution(pop[n]) == want then [pop[n]] else [])
  }

  /** Filtering keeps exactly the chromosomes with the wanted flag, and the
      two filters split the population between them. */
  lemma {:induction false} FilterSplit(pop: seq<XmlNode>, isSolution: XmlNode -> bool)
    ensures forall x :: x in Filter(pop, isSolution, true) <==> x in pop && isSolution(x)
    ensures forall x :: x in Filter(pop, isSolution, false) <==> x in pop && !isSolution(x)
    ensures |Filter(pop, isSolution, true)| + |Filter(pop, isSolution, false)| == |pop|
    decreases |pop|
  {
    if pop != [] {
      var n := |pop| - 1;
      FilterSplit(pop[..n], isSolution);
      assert pop == pop[..n] + [pop[n]];
    }
  }

  /** The step with solutions and selected rebuilt from its population: a
      solution goes to solutions, every other chromosome to selected. */
  function Classify(l: Loaded, isSolution: XmlNode -> bool): Loaded
  {
    l.(solutions := Filter(l.population, isSolution, true), selected := Filter(l.population, isSolution, false))
  }

  /** solutions and selected are exactly what Classify would make of the
      population. */
  predicate Classified(l: Loaded, isSolution: XmlNode -> bool)
  {
    Classify(l, isSolution) == l
  }

  /** In a classified step the solutions are the population's solutions, the
      selected are all its other chromosomes, and nothing is left out or
      counted twice. */
  lemma ClassifiedPartition(l: Loaded, isSolution: XmlNode -> bool)
    requires Classified(l, isSolution)
    ensures forall x :: x in l.solutions <==> x in l.population && isSolution(x)
    ensures forall x :: x in l.selected <==> x in l.population && !isSolution(x)
    ensures |l.solutions| + |l.selected| == |l.population|
  {
    FilterSplit(l.population, isSolution);
  }

  /** How the evaluations, champFitness, archive and species children are
      read; all four use the same guard. */
  function LoadCounters(l: Loaded, child: XmlNode): Result<Loaded, LoadFailure>
  {
    var l :- if EqualsIgnoreCase(child.name, EvaluationCountTag) then
               var v :- LoadCounter(l.evaluationCount, EvaluationCountTag, child.text);
               Success(l.(evaluationCount := v))
             else Success(l);
    var l :- if EqualsIgnoreCase(child.name, ChampFitnessTag) then
               var v :- LoadCounter(l.champFitness, ChampFitnessTag, child.text);
               Success(l.(champFitness := v))
             else Success(l);
    var l :- if EqualsIgnoreCase(child.name, ArchiveTag) then
               var v :- LoadCounter(l.archiveSize, ArchiveTag, child.text);
               Success(l.(archiveSize := v))
             else Success(l);
    if EqualsIgnoreCase(child.name, SpeciesTag) then
      var v :- LoadCounter(l.speciesSize, SpeciesTag, child.text);
      Success(l.(speciesSize := v))
    else Success(l)
  }

  /** The scalar fields one child sets: each of the five tests runs, in
      order, whatever the earlier ones did. */
  function LoadFields(l: Loaded, child: XmlNode, known: set<string>): (r: Result<Loaded, LoadFailure>)
    ensures r.Success? ==> r.value.(action := l.action, evaluationCount := l.evaluationCount,
                                    champFitness := l.champFitness, archiveSize := l.archiveSize,
                                    speciesSize := l.speciesSize) == l
  {
    var l :- if EqualsIgnoreCase(child.name, ActionTag) then
               var a :- LoadAction(child.text, known);
               Success(l.(action := a))
             else Success(l);
    LoadCounters(l, child)
  }

  /** loadFromXml as the source writes it, and with the chromosome loop
      corrected (see Findings in the README). */
  datatype Variant = AsWritten | Corrected

  /** What a chromosome child does to the step: the population grows by
      added, and solutions and selected are rebuilt from it. */
  function Grow(l: Loaded, added: seq<XmlNode>, isSolution: XmlNode -> bool): (r: Loaded)
    ensures r.population == l.population + added && Classified(r, isSolution)
  {
    Classify(l.(population := l.population + added), isSolution)
  }

  /** Growing twice is growing once by both. */
  lemma GrowTwice(l: Loaded, a: seq<XmlNode>, b: seq<XmlNode>, isSolution: XmlNode -> bool)
    ensures Grow(Grow(l, a, isSolution), b, isSolution) == Grow(l, a + b, isSolution)
  {
    assert l.population + a + b == l.population + (a + b);
  }

  /** One child: the scalar fields, then, for a chromosome child, the
      population grows and solutions and selected are rebuilt from it. As
      written, every chromosome child adds all the step's chromosome
      children; corrected, it adds itself. */
  function LoadChild(l: Loaded, child: XmlNode, siblings: seq<XmlNode>, isSolution: XmlNode -> bool,
                     known: set<string>, v: Variant): Result<Loaded, LoadFailure>
  {
    var l :- LoadFields(l, child, known);
    if IsChromosome(child) then
      Success(Grow(l, if v == AsWritten then ChromosomeChildren(siblings) else [child], isSolution))
    else Success(l)
  }

  /** How the loop reads one child into the step. */
  type Loader = (Loaded, XmlNode) -> Result<Loaded, LoadFailure>

  function ChildLoader(siblings: seq<XmlNode>, isSolution: XmlNode -> bool, known: set<string>, v: Variant): Loader
  {
    (l, child) => LoadChild(l, child, siblings, isSolution, known, v)
  }

  /** The loop over the remaining children; the first throw ends it. */
  function LoadChildren(l: Loaded, children: seq<XmlNode>, load: Loader): Result<Loaded, LoadFailure>
    decreases |children|
  {
    if children == [] then Success(l)
    else
      var l' :- load(l, children[0]);
      LoadChildren(l', children[1..], load)
  }

  /** IecStep(Node): the id, then the children, starting from the initial
      field values. */
  function LoadStep(step: XmlNode, isSolution: XmlNode -> bool, known: set<string>, v: Variant)
    : Result<Loaded, LoadFailure>
  {
    var id :- LoadId(step);
    LoadChildren(Empty.(id := id), step.children, ChildLoader(step.children, isSolution, known, v))
  }

  /** A step whose lists are classified stays so after any one child. */
  lemma LoadChildClassified(l: Loaded, child: XmlNode, siblings: seq<XmlNode>, isSolution: XmlNode -> bool,
                            known: set<string>, v: Variant)
    requires Classified(l, isSolution) && l.unselected == []
    ensures var r := LoadChild(l, child, siblings, isSolution, known, v);
            r.Success? ==> Classified(r.value, isSolution) && r.value.unselected == []
  {
  }

  lemma {:induction false} LoadChildrenClassified(l: Loaded, children: seq<XmlNode>, load: Loader,
                                                  isSolution: XmlNode -> bool)
    requires Classified(l, isSolution) && l.unselected == []
    requires forall m, c :: Classified(m, isSolution) && m.unselected == [] && load(m, c).Success? ==>
                              Classified(load(m, c).value, isSolution) && load(m, c).value.unselected == []
    ensures LoadChildren(l, children, load).Success? ==>
              Classified(LoadChildren(l, children, load).value, isSolution) &&
              LoadChildren(l, children, load).value.unselected == []
    decreases |children|
  {
    if children != [] && load(l, children[0]).Success? {
      LoadChildrenClassified(load(l, children[0]).value, children[1..], load, isSolution);
    }
  }

  /** The lists of a loaded step are always classified, and unselected is
      never filled. */
  lemma LoadStepClassified(step: XmlNode, isSolution: XmlNode -> bool, known: set<string>, v: Variant)
    ensures LoadStep(step, isSolution, known, v).Success? ==>
              var l := LoadStep(step, isSolution, known, v).value;
              Classified(l, isSolution) && l.unselected == []
  {
    var id := LoadId(step);
    if id.Success? {
      var load := ChildLoader(step.children, isSolution, known, v);
      forall m, c | Classified(m, isSolution) && m.unselected == [] && load(m, c).Success?
        ensures Classified(load(m, c).value, isSolution) && load(m, c).value.unselected == []
      {
        LoadChildClassified(m, c, step.children, isSolution, known, v);
      }
      LoadChildrenClassified(Empty.(id := id.value), step.children, load, isSolution);
    }
  }

  /** A loaded step's solutions are its solution chromosomes and its selected
      all the others. */
  lemma LoadedPartition(step: XmlNode, isSolution: XmlNode -> bool, known: set<string>, v: Variant)
    requires LoadStep(step, isSolution, known, v).Success?
    ensures var l := LoadStep(step, isSolution, known, v).value;
            && (forall x :: x in l.solutions <==> x in l.population && isSolution(x))
            && (forall x :: x in l.selected <==> x in l.population && !isSolution(x))
            && |l.solutions| + |l.selected| == |l.population|
            && (|l.solutions| > 0 <==> exists x :: x in l.population && isSolution(x))
  {
    LoadStepClassified(step, isSolution, known, v);
    var l := LoadStep(step, isSolution, known, v).value;
    ClassifiedPartition(l, isSolution);
    if exists x :: x in l.population && isSolution(x) {
      var x :| x in l.population && isSolution(x);
      assert x in l.solutions;
    }
    if |l.solutions| > 0 {
      assert l.solutions[0] in l.solutions;
    }
  }

  /** Reading a run of children one after another is reading the first part,
      then, unless it threw, the second. */
  lemma {:induction false} LoadChildrenAppend(l: Loaded, a: seq<XmlNode>, b: seq<XmlNode>, load: Loader)
    ensures LoadChildren(l, a + b, load) == (var m :- LoadChildren(l, a, load); LoadChildren(m, b, load))
    decreases |a|
  {
    if a == [] {
      assert a + b == b;
    } else {
      assert (a + b)[0] == a[0] && (a + b)[1..] == a[1..] + b;
      if load(l, a[0]).Success? {
        LoadChildrenAppend(load(l, a[0]).value, a[1..], b, load);
      }
    }
  }

  lemma LoadOne(l: Loaded, child: XmlNode, load: Loader)
    ensures LoadChildren(l, [child], load) == load(l, child)
  {
    assert [child][1..] == [];
  }

  /** The step-level tags are pairwise different even ignoring case, so a
      child takes at most one branch. */
  lemma TagsDistinct()
    ensures !EqualsIgnoreCase(EvaluationCountTag, IecEvalTimeTag)
    ensures !EqualsIgnoreCase(ArchiveTag, SpeciesTag) && !EqualsIgnoreCase(SpeciesTag, ArchiveTag)
    ensures !EqualsIgnoreCase(RuntimeTag, ArchiveTag) && !EqualsIgnoreCase(RuntimeTag, SpeciesTag)
    ensures |ActionTag| == 6 && |EvaluationCountTag| == 11 && |IecEvalTimeTag| == 11 && |RuntimeTag| == 7
    ensures |ChampFitnessTag| == 12 && |ArchiveTag| == 7 && |SpeciesTag| == 7 && |ChromosomeTag| == 10
  {
    assert FoldCase(EvaluationCountTag[0]) != FoldCase(IecEvalTimeTag[0]);
    assert FoldCase(ArchiveTag[0]) != FoldCase(SpeciesTag[0]);
    assert FoldCase(RuntimeTag[0]) != FoldCase(ArchiveTag[0]);
    assert FoldCase(RuntimeTag[0]) != FoldCase(SpeciesTag[0]);
  }

  /** The children toXml writes for its text elements. */
  function ElementNodes(es: seq<(string, string)>): (r: seq<XmlNode>)
    ensures |r| == |es|
    ensures forall i :: 0 <= i < |es| ==> r[i] == XmlNode(es[i].0, [], es[i].1, [])
  {
    seq(|es|, i requires 0 <= i < |es| => XmlNode(es[i].0, [], es[i].1, []))
  }

  lemma ElementNodesAppend(a: seq<(string, string)>, b: seq<(string, string)>)
    ensures ElementNodes(a + b) == ElementNodes(a) + ElementNodes(b)
  {
    assert forall i :: 0 <= i < |a + b| ==> ElementNodes(a + b)[i] == (ElementNodes(a) + ElementNodes(b))[i];
  }

  /** The element toXml writes, as the reader sees it: the id attribute, the
      text elements, then the chromosome elements. */
  function StepNode(f: StepFields, chromosomes: seq<XmlNode>): XmlNode
  {
    XmlNode(IecStepTag, [(StepIdTag, Render(f.id))], "", ElementNodes(Elements(f)) + chromosomes)
  }

  /** A value the reader can take back: unset, or small enough to parse. */
  predicate Fits(v: Option<int>, max: nat)
  {
    v.Some? ==> v.value <= max
  }

  /** What survives writing and reading a nullable number: a negative one is
      written with a minus sign and read as unset. */
  function NonNegative(v: Option<int>): (r: Option<int>)
    ensures r.Some? ==> r.value >= 0
    ensures v.Some? && v.value >= 0 ==> r == v
  {
    if v.Some? && v.value >= 0 then v else None
  }

  /** The id attribute reads back as written, minus a negative id. */
  lemma LoadIdRoundTrip(f: StepFields, cs: seq<XmlNode>)
    requires Fits(f.id, LongMax)
    ensures LoadId(StepNode(f, cs)) == Success(NonNegative(f.id))
  {
    if f.id.None? {
      assert !IsDigit(Render(f.id)[0]);
    } else if f.id.value >= 0 {
      ParseDecimalRoundTrip(f.id.value, LongMax);
    } else {
      NegativeDecimalIsSkipped(f.id.value, LongMax);
    }
  }

  /** The field a counter element sets, given what was written. */
  function WithCounter(l: Loaded, tag: string, v: Option<int>): Loaded
  {
    if NonNegative(v).None? then l
    else if tag == EvaluationCountTag then l.(evaluationCount := v)
    else if tag == ChampFitnessTag then l.(champFitness := v)
    else if tag == ArchiveTag then l.(archiveSize := v)
    else l.(speciesSize := v)
  }

  /** A counter element written only when set reads back into its field. */
  lemma LoadOptional(l: Loaded, tag: string, v: Option<int>, load: Loader, siblings: seq<XmlNode>,
                     isSolution: XmlNode -> bool, known: set<string>, variant: Variant)
    requires tag == EvaluationCountTag || tag == ChampFitnessTag || tag == ArchiveTag || tag == SpeciesTag
    requires Fits(v, IntMax)
    requires load == ChildLoader(siblings, isSolution, known, variant)
    ensures LoadChildren(l, ElementNodes(Optional(tag, v)), load) == Success(WithCounter(l, tag, v))
  {
    if v.Some? {
      var node := XmlNode(tag, [], Decimal(v.value), []);
      assert ElementNodes(Optional(tag, v)) == [node];
      LoadOne(l, node, load);
      TagsDistinct();
      if v.value >= 0 {
        ParseDecimalRoundTrip(v.value, IntMax);
      } else {
        NegativeDecimalIsSkipped(v.value, IntMax);
      }
      assert load(l, node) == LoadChild(l, node, siblings, isSolution, known, variant);
    }
  }

  /** A text element the reader has no branch for changes nothing. */
  lemma LoadTimeElement(l: Loaded, tag: string, text: string, load: Loader, siblings: seq<XmlNode>,
                        isSolution: XmlNode -> bool, known: set<string>, variant: Variant)
    requires tag == IecEvalTimeTag || tag == RuntimeTag
    requires load == ChildLoader(siblings, isSolution, known, variant)
    ensures LoadChildren(l, [XmlNode(tag, [], text, [])], load) == Success(l)
  {
    LoadOne(l, XmlNode(tag, [], text, []), load);
    TagsDistinct();
    assert load(l, XmlNode(tag, [], text, [])) == LoadChild(l, XmlNode(tag, [], text, []), siblings, isSolution, known, variant);
  }

  /** The action element reads back as the action, when its name is one the
      enumeration knows. */
  lemma LoadActionElement(l: Loaded, name: string, load: Loader, siblings: seq<XmlNode>,
                          isSolution: XmlNode -> bool, known: set<string>, variant: Variant)
    requires name in known
    requires load == ChildLoader(siblings, isSolution, known, variant)
    ensures LoadChildren(l, [XmlNode(ActionTag, [], name, [])], load) == Success(l.(action := Some(StepType(name))))
  {
    LoadOne(l, XmlNode(ActionTag, [], name, []), load);
    TagsDistinct();
    assert load(l, XmlNode(ActionTag, [], name, [])) ==
           LoadChild(l, XmlNode(ActionTag, [], name, []), siblings, isSolution, known, variant);
  }

  /** All the text elements toXml writes read back into their fields. */
  lemma LoadElements(f: StepFields, l: Loaded, load: Loader, siblings: seq<XmlNode>, isSolution: XmlNode -> bool,
                     known: set<string>, variant: Variant)
    requires f.action.Some? && f.action.value.name in known
    requires Fits(f.evaluationCount, IntMax) && Fits(f.champFitness, IntMax)
    requires Fits(f.archiveSize, IntMax) && Fits(f.speciesSize, IntMax)
    requires load == ChildLoader(siblings, isSolution, known, variant)
    ensures LoadChildren(l, ElementNodes(Elements(f)), load) ==
              Success(WithCounter(WithCounter(WithCounter(WithCounter(l.(action := f.action),
                EvaluationCountTag, f.evaluationCount), ChampFitnessTag, f.champFitness),
                ArchiveTag, f.archiveSize), SpeciesTag, f.speciesSize))
  {
    var a := [(ActionTag, RenderAction(f.action))];
    var e := Optional(EvaluationCountTag, f.evaluationCount);
    var t1 := [(IecEvalTimeTag, Decimal(f.runTime))];
    var t2 := [(RuntimeTag, Decimal(f.runTime))];
    var c := Optional(ChampFitnessTag, f.champFitness);
    var r := Optional(ArchiveTag, f.archiveSize);
    var s := Optional(SpeciesTag, f.speciesSize);
    assert Elements(f) == a + e + t1 + t2 + c + r + s;
    ElementNodesAppend(a + e + t1 + t2 + c + r, s);
    ElementNodesAppend(a + e + t1 + t2 + c, r);
    ElementNodesAppend(a + e + t1 + t2, c);
    ElementNodesAppend(a + e + t1, t2);
    ElementNodesAppend(a + e, t1);
    ElementNodesAppend(a, e);
    var na, ne, n1, n2 := ElementNodes(a), ElementNodes(e), ElementNodes(t1), ElementNodes(t2);
    var nc, nr, ns := ElementNodes(c), ElementNodes(r), ElementNodes(s);
    assert na == [XmlNode(ActionTag, [], f.action.value.name, [])];
    assert n1 == [XmlNode(IecEvalTimeTag, [], Decimal(f.runTime), [])];
    assert n2 == [XmlNode(RuntimeTag, [], Decimal(f.runTime), [])];
    LoadChildrenAppend(l, na + ne + n1 + n2 + nc + nr, ns, load);
    LoadChildrenAppend(l, na + ne + n1 + n2 + nc, nr, load);
    LoadChildrenAppend(l, na + ne + n1 + n2, nc, load);
    LoadChildrenAppend(l, na + ne + n1, n2, load);
    LoadChildrenAppend(l, na + ne, n1, load);
    LoadChildrenAppend(l, na, ne, load);
    LoadActionElement(l, f.action.value.name, load, siblings, isSolution, known, variant);
    var l1 := l.(action := f.action);
    LoadOptional(l1, EvaluationCountTag, f.evaluationCount, load, siblings, isSolution, known, variant);
    var l2 := WithCounter(l1, EvaluationCountTag, f.evaluationCount);
    LoadTimeElement(l2, IecEvalTimeTag, Decimal(f.runTime), load, siblings, isSolution, known, variant);
    LoadTimeElement(l2, RuntimeTag, Decimal(f.runTime), load, siblings, isSolution, known, variant);
    LoadOptional(l2, ChampFitnessTag, f.champFitness, load, siblings, isSolution, known, variant);
    var l3 := WithCounter(l2, ChampFitnessTag, f.champFitness);
    LoadOptional(l3, ArchiveTag, f.archiveSize, load, siblings, isSolution, known, variant);
    var l4 := WithCounter(l3, ArchiveTag, f.archiveSize);
    LoadOptional(l4, SpeciesTag, f.speciesSize, load, siblings, isSolution, known, variant);
  }

  /** Starting from unset counters, the counter elements leave each counter
      at its written value, or unset for a negative one. */
  lemma CountersRead(f: StepFields, l0: Loaded)
    requires l0 == Empty.(id := l0.id)
    ensures WithCounter(WithCounter(WithCounter(WithCounter(l0.(action := f.action),
              EvaluationCountTag, f.evaluationCount), ChampFitnessTag, f.champFitness),
              ArchiveTag, f.archiveSize), SpeciesTag, f.speciesSize)
            == Loaded(l0.id, f.action, NonNegative(f.evaluationCount), NonNegative(f.champFitness),
                      NonNegative(f.archiveSize), NonNegative(f.speciesSize), [], [], [], [])
  {
    TagsDistinct();
    var l1 := l0.(action := f.action);
    var l2 := WithCounter(l1, EvaluationCountTag, f.evaluationCount);
    assert l2 == l1.(evaluationCount := NonNegative(f.evaluationCount));
    var l3 := WithCounter(l2, ChampFitnessTag, f.champFitness);
    assert l3 == l2.(champFitness := NonNegative(f.champFitness));
    var l4 := WithCounter(l3, ArchiveTag, f.archiveSize);
    assert l4 == l3.(archiveSize := NonNegative(f.archiveSize));
  }

  /** A chromosome child sets no scalar field: it only grows the population. */
  lemma LoadChromosomeChild(l: Loaded, c: XmlNode, siblings: seq<XmlNode>, isSolution: XmlNode -> bool,
                            known: set<string>, v: Variant)
    requires IsChromosome(c)
    ensures LoadChild(l, c, siblings, isSolution, known, v) ==
              Success(Grow(l, if v == AsWritten then ChromosomeChildren(siblings) else [c], isSolution))
  {
    TagsDistinct();
    assert LoadFields(l, c, known) == Success(l);
  }

  /** Children that each add themselves add the whole run, once, in order. */
  lemma {:induction false} LoadEachOnce(l: Loaded, cs: seq<XmlNode>, load: Loader, isSolution: XmlNode -> bool)
    requires forall m, i :: 0 <= i < |cs| ==> load(m, cs[i]) == Success(Grow(m, [cs[i]], isSolution))
    ensures LoadChildren(l, cs, load) == Success(if cs == [] then l else Grow(l, cs, isSolution))
    decreases |cs|
  {
    if cs != [] {
      assert load(l, cs[0]) == Success(Grow(l, [cs[0]], isSolution));
      forall m, i | 0 <= i < |cs[1..]|
        ensures load(m, cs[1..][i]) == Success(Grow(m, [cs[1..][i]], isSolution))
      {
        assert cs[1..][i] == cs[i + 1];
      }
      LoadEachOnce(Grow(l, [cs[0]], isSolution), cs[1..], load, isSolution);
      if cs[1..] == [] {
        assert cs == [cs[0]];
      } else {
        GrowTwice(l, [cs[0]], cs[1..], isSolution);
        assert [cs[0]] + cs[1..] == cs;
      }
    }
  }

  /** Children that each add the same run all add it, once per child. */
  lemma {:induction false} LoadEachAll(l: Loaded, cs: seq<XmlNode>, all: seq<XmlNode>, load: Loader,
                                       isSolution: XmlNode -> bool)
    requires forall m, i :: 0 <= i < |cs| ==> load(m, cs[i]) == Success(Grow(m, all, isSolution))
    ensures LoadChildren(l, cs, load) == Success(if cs == [] then l else Grow(l, Repeat(all, |cs|), isSolution))
    decreases |cs|
  {
    if cs != [] {
      assert load(l, cs[0]) == Success(Grow(l, all, isSolution));
      forall m, i | 0 <= i < |cs[1..]|
        ensures load(m, cs[1..][i]) == Success(Grow(m, all, isSolution))
      {
        assert cs[1..][i] == cs[i + 1];
      }
      LoadEachAll(Grow(l, all, isSolution), cs[1..], all, load, isSolution);
      if cs[1..] == [] {
        assert |cs| == 1 && Repeat(all, 0) == [];
        assert Repeat(all, |cs|) == all + Repeat(all, 0) == all;
      } else {
        GrowTwice(l, all, Repeat(all, |cs| - 1), isSolution);
      }
    }
  }

  /** Reading back what toXml writes, with the chromosome loop corrected,
      gives the fields written (a negative number comes back unset) and the
      chromosomes written, in order and each once, classified. */
  lemma LoadStepRoundTrip(f: StepFields, cs: seq<XmlNode>, isSolution: XmlNode -> bool, known: set<string>)
    requires f.action.Some? && f.action.value.name in known
    requires Fits(f.id, LongMax) && Fits(f.evaluationCount, IntMax) && Fits(f.champFitness, IntMax)
    requires Fits(f.archiveSize, IntMax) && Fits(f.speciesSize, IntMax)
    requires AllChromosomes(cs)
    ensures LoadStep(StepNode(f, cs), isSolution, known, Corrected) ==
              Success(Classify(Loaded(NonNegative(f.id), f.action, NonNegative(f.evaluationCount),
                                      NonNegative(f.champFitness), NonNegative(f.archiveSize),
                                      NonNegative(f.speciesSize), cs, [], [], []), isSolution))
  {
    var node := StepNode(f, cs);
    LoadIdRoundTrip(f, cs);
    var l0 := Empty.(id := NonNegative(f.id));
    var load := ChildLoader(node.children, isSolution, known, Corrected);
    LoadElements(f, l0, load, node.children, isSolution, known, Corrected);
    CountersRead(f, l0);
    LoadStepParts(node, NonNegative(f.id), ElementNodes(Elements(f)), cs, isSolution, known);
  }

  /** A step whose id reads back and whose children are text elements that
      read back into a step without chromosomes, followed by chromosome
      elements, loads those chromosomes once each. */
  lemma LoadStepParts(step: XmlNode, id: Option<int>, es: seq<XmlNode>, cs: seq<XmlNode>,
                      isSolution: XmlNode -> bool, known: set<string>)
    requires LoadId(step) == Success(id)
    requires step.children == es + cs
    requires var r := LoadChildren(Empty.(id := id), es, ChildLoader(step.children, isSolution, known, Corrected));
             r.Success? && r.value.population == [] && r.value.solutions == [] && r.value.selected == []
    requires AllChromosomes(cs)
    ensures var l := LoadChildren(Empty.(id := id), es, ChildLoader(step.children, isSolution, known, Corrected)).value;
            LoadStep(step, isSolution, known, Corrected) == Success(Classify(l.(population := cs), isSolution))
  {
    var load := ChildLoader(step.children, isSolution, known, Corrected);
    var l := LoadChildren(Empty.(id := id), es, load).value;
    forall m, i | 0 <= i < |cs|
      ensures load(m, cs[i]) == Success(Grow(m, [cs[i]], isSolution))
    {
      LoadChromosomeChild(m, cs[i], step.children, isSolution, known, Corrected);
    }
    LoadChildrenAppend(Empty.(id := id), es, cs, load);
    LoadEachOnce(l, cs, load, isSolution);
    assert l.population + cs == cs;
  }

  /** xs, k times over. */
  function Repeat<T>(xs: seq<T>, k: nat): seq<T>
  {
    if k == 0 then [] else xs + Repeat(xs, k - 1)
  }

  lemma {:induction false} RepeatLength<T>(xs: seq<T>, k: nat)
    ensures |Repeat(xs, k)| == k * |xs|
  {
    if k > 0 {
      RepeatLength(xs, k - 1);
    }
  }

  /** A step of k chromosome elements and nothing else, read as written,
      loads k * k chromosomes: k copies of the whole list. */
  lemma ChromosomeStepAsWritten(name: string, cs: seq<XmlNode>, isSolution: XmlNode -> bool, known: set<string>)
    requires AllChromosomes(cs)
    ensures LoadStep(XmlNode(name, [], "", cs), isSolution, known, AsWritten).Success?
    ensures LoadStep(XmlNode(name, [], "", cs), isSolution, known, AsWritten).value.population == Repeat(cs, |cs|)
    ensures |LoadStep(XmlNode(name, [], "", cs), isSolution, known, AsWritten).value.population| == |cs| * |cs|
  {
    AllChromosomeChildren(cs);
    RepeatLength(cs, |cs|);
    var load := ChildLoader(cs, isSolution, known, AsWritten);
    forall m, i | 0 <= i < |cs|
      ensures load(m, cs[i]) == Success(Grow(m, cs, isSolution))
    {
      LoadChromosomeChild(m, cs[i], cs, isSolution, known, AsWritten);
    }
    LoadEachAll(Empty, cs, cs, load, isSolution);
  }

  /** The same step read with the loop corrected loads the k elements once
      each. */
  lemma ChromosomeStepCorrected(name: string, cs: seq<XmlNode>, isSolution: XmlNode -> bool, known: set<string>)
    requires AllChromosomes(cs)
    ensures LoadStep(XmlNode(name, [], "", cs), isSolution, known, Corrected).Success?
    ensures LoadStep(XmlNode(name, [], "", cs), isSolution, known, Corrected).value.population == cs
  {
    var load := ChildLoader(cs, isSolution, known, Corrected);
    forall m, i | 0 <= i < |cs|
      ensures load(m, cs[i]) == Success(Grow(m, [cs[i]], isSolution))
    {
      LoadChromosomeChild(m, cs[i], cs, isSolution, known, Corrected);
    }
    LoadEachOnce(Empty, cs, load, isSolution);
  }

  /** Two chromosome elements read as written give four chromosomes, the
      pair twice over. */
  lemma TwoChromosomesLoadFour(isSolution: XmlNode -> bool, known: set<string>)
    ensures var a, b := XmlNode(ChromosomeTag, [("id", "1")], "", []), XmlNode(ChromosomeTag, [("id", "2")], "", []);
            LoadStep(XmlNode(IecStepTag, [], "", [a, b]), isSolution, known, AsWritten).Success? &&
            LoadStep(XmlNode(IecStepTag, [], "", [a, b]), isSolution, known, AsWritten).value.population == [a, b, a, b] &&
            LoadStep(XmlNode(IecStepTag, [], "", [a, b]), isSolution, known, Corrected).Success? &&
            LoadStep(XmlNode(IecStepTag, [], "", [a, b]), isSolution, known, Corrected).value.population == [a, b]
  {
    var a, b := XmlNode(ChromosomeTag, [("id", "1")], "", []), XmlNode(ChromosomeTag, [("id", "2")], "", []);
    ChromosomeStepAsWritten(IecStepTag, [a, b], isSolution, known);
    ChromosomeStepCorrected(IecStepTag, [a, b], isSolution, known);
    assert Repeat([a, b], 2) == [a, b, a, b];
  }

  /** The loop of loadFromXml over the children, corrected. */
  method LoadFromXml(step: XmlNode, isSolution: XmlNode -> bool, known: set<string>)
    returns (r: Result<Loaded, LoadFailure>)
    ensures r == LoadStep(step, isSolution, known, Corrected)
  {
    var id := LoadId(step);
    if id.Failure? {
      return Failure(id.error);
    }
    var l := Empty.(id := id.value);
    var children := step.children;
    ghost var load := ChildLoader(children, isSolution, known, Corrected);
    ghost var target := LoadStep(step, isSolution, known, Corrected);
    var i := 0;
    while i < |children|
      invariant 0 <= i <= |children|
      invariant LoadChildren(l, children[i..], load) == target
    {
      var child := children[i];
      assert children[i..][1..] == children[i + 1..];
      assert load(l, child) == LoadChild(l, child, children, isSolution, known, Corrected);
      var fields := LoadFields(l, child, known);
      if fields.Failure? {
        return Failure(fields.error);
      }
      l := fields.value;
      if IsChromosome(child) {
        var population := l.population + [child];
        var solutions, selected := ClassifyAll(population, isSolution);
        l := l.(population := population, solutions := solutions, selected := selected);
      }
      i := i + 1;
    }
    return Success(l);
  }

  /** The classification loop: solutions first, everything else selected,
      both rebuilt from scratch. */
  method ClassifyAll(population: seq<XmlNode>, isSolution: XmlNode -> bool)
    returns (solutions: seq<XmlNode>, selected: seq<XmlNode>)
    ensures solutions == Filter(population, isSolution, true)
    ensures selected == Filter(population, isSolution, false)
  {
    solutions, selected := [], [];
    for i := 0 to |population|
      invariant solutions == Filter(population[..i], isSolution, true)
      invariant selected == Filter(population[..i], isSolution, false)
    {
      assert population[..i + 1][..i] == population[..i];
      if isSolution(population[i]) {
        solutions := solutions + [population[i]];
      } else {
        selected := selected + [population[i]];
      }
    }
    assert population[..|population|] == population;
  }
}
