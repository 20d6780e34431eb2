/** One step of an interactive evolution run as the experiment log records it:
    the user's action, the run's counters, the population and which of its
    chromosomes the user selected or flagged as solutions. The step is updated
    from the live genotype, written out as an XML fragment and read back from
    an XML element. */
module IecStep {
  import opened Common
  import opened Text

  const IecStepTag: string := "step"
  const StepIdTag: string := "id"
  const ActionTag: string := "action"
  const IecEvalTimeTag: string := "iecEvalTime"
  const RuntimeTag: string := "runTime"
  const EvaluationCountTag: string := "evaluations"
  const ChampFitnessTag: string := "champFitness"
  const SpeciesTag: string := "species"
  const ArchiveTag: string := "archive"
  /** The element name the genetic-algorithm library writes a chromosome under. */
  const ChromosomeTag: string := "chromosome"

  /** A user action of the StepType enumeration, by its constant name. */
  datatype StepType = StepType(name: string)

  /** A genome as the step sees it: an identity, its size, and the two flags
      the step reads and writes. */
  class Chromosome {
    const id: int
    const nodeCount: nat
    const linkCount: nat
    var isSolution: bool
    var isSelected: bool

    constructor (id: int, nodeCount: nat, linkCount: nat, isSolution: bool, isSelected: bool)
      ensures this.id == id && this.nodeCount == nodeCount && this.linkCount == linkCount
      ensures this.isSolution == isSolution && this.isSelected == isSelected
    {
      this.id := id;
      this.nodeCount := nodeCount;
      this.linkCount := linkCount;
      this.isSolution := isSolution;
      this.isSelected := isSelected;
    }
  }

  /** What a step reads from the live genotype: the species count, the novelty
      archive size, the evaluations of the last generation, the fittest
      chromosome's fitness (if there is a fittest one) and the population. */
  datatype Genotype = Genotype(speciesCount: nat, archiveSize: int, evaluationCount: int,
                               fittest: Option<int>, chromosomes: seq<Chromosome>)

  /** List.containsAll, by identity. */
  predicate ContainsAll(s: seq<Chromosome>, xs: seq<Chromosome>)
  {
    forall c :: c in xs ==> c in s
  }

  /** An empty list contains all of a list only when that list is empty too. */
  lemma NothingInEmpty(xs: seq<Chromosome>)
    ensures ContainsAll([], xs) <==> xs == []
  {
    if xs != [] {
      assert xs[0] in xs;
    }
  }

  /** The three lists update files a chromosome under. */
  datatype Kind = Solution | Selected | Unselected

  predicate HasKind(c: Chromosome, k: Kind)
    reads c
  {
    match k
    case Solution => c.isSolution
    case Selected => c.isSelected
    case Unselected => !c.isSelected && !c.isSolution
  }

  /** Whether each chromosome of pop is of kind k, as its flags stand. */
  function Marks(pop: seq<Chromosome>, k: Kind): (r: seq<bool>)
    reads pop
    ensures |r| == |pop|
  {
    if pop == [] then [] else Marks(pop[..|pop| - 1], k) + [HasKind(pop[|pop| - 1], k)]
  }

  /** The marks depend only on the chromosomes' flags. */
  twostate lemma MarksUnchanged(pop: seq<Chromosome>)
    requires forall i :: 0 <= i < |pop| ==> unchanged(pop[i])
    ensures Marks(pop, Solution) == old(Marks(pop, Solution))
    ensures Marks(pop, Selected) == old(Marks(pop, Selected))
    ensures Marks(pop, Unselected) == old(Marks(pop, Unselected))
  {
  }

  /** The mark of each chromosome is its kind. */
  lemma {:induction false} MarksAt(pop: seq<Chromosome>, k: Kind, i: nat)
    requires i < |pop|
    ensures Marks(pop, k)[i] == HasKind(pop[i], k)
  {
    if i < |pop| - 1 {
      MarksAt(pop[..|pop| - 1], k, i);
    }
  }

  /** The list acc with the entries of pop that are marked appended, in
      order, one entry per occurrence. */
  function Filed<T>(acc: seq<T>, pop: seq<T>, marks: seq<bool>): (r: seq<T>)
    requires |marks| == |pop|
    ensures |acc| <= |r| <= |acc| + |pop|
    ensures r[..|acc|] == acc
  {
    if pop == [] then acc
    else
      var n := |pop| - 1;
      var init := Filed(acc, pop[..n], marks[..n]);
      var r := init + (if marks[n] then [pop[n]] else []);
      assert r[..|acc|] == init[..|acc|];
      r
  }

  /** What is filed is what was there plus exactly the marked chromosomes of
      pop. */
  lemma {:induction false} FiledMembers<T>(acc: seq<T>, pop: seq<T>, marks: seq<bool>)
    requires |marks| == |pop|
    ensures forall c :: c in Filed(acc, pop, marks) ==>
              c in acc || exists i :: 0 <= i < |pop| && marks[i] && pop[i] == c
    ensures forall i :: 0 <= i < |pop| && marks[i] ==> pop[i] in Filed(acc, pop, marks)
  {
    if pop != [] {
      var n := |pop| - 1;
      FiledMembers(acc, pop[..n], marks[..n]);
      assert forall i :: 0 <= i < n ==> pop[..n][i] == pop[i] && marks[..n][i] == marks[i];
    }
  }

  /** After filing, the list is non-empty exactly when it was before or some
      entry of pop is marked. */
  lemma FiledNonEmpty<T>(acc: seq<T>, pop: seq<T>, marks: seq<bool>)
    requires |marks| == |pop|
    ensures |Filed(acc, pop, marks)| > 0 <==> |acc| > 0 || true in marks
  {
    FiledMembers(acc, pop, marks);
    if true in marks {
      var i :| 0 <= i < |marks| && marks[i];
      assert pop[i] in Filed(acc, pop, marks);
    }
    if |Filed(acc, pop, marks)| > 0 && |acc| == 0 {
      var c := Filed(acc, pop, marks)[0];
      assert c in Filed(acc, pop, marks);
      var i :| 0 <= i < |pop| && marks[i] && pop[i] == c;
      assert marks[i] in marks;
    }
  }

  /** hasSolution after update: the solutions list is non-empty exactly when
      it was before or some chromosome of the population is a solution. */
  lemma SolutionFiled(acc: seq<Chromosome>, pop: seq<Chromosome>)
    ensures |Filed(acc, pop, Marks(pop, Solution))| > 0 <==>
              |acc| > 0 || exists i :: 0 <= i < |pop| && pop[i].isSolution
  {
    FiledNonEmpty(acc, pop, Marks(pop, Solution));
    if exists i :: 0 <= i < |pop| && pop[i].isSolution {
      var i :| 0 <= i < |pop| && pop[i].isSolution;
      MarksAt(pop, Solution, i);
      assert Marks(pop, Solution)[i];
    }
    if true in Marks(pop, Solution) {
      var i :| 0 <= i < |pop| && Marks(pop, Solution)[i];
      MarksAt(pop, Solution, i);
    }
  }

  lemma FiledSnoc<T>(acc: seq<T>, pop: seq<T>, marks: seq<bool>, i: nat)
    requires |marks| == |pop| && i < |pop|
    ensures Filed(acc, pop[..i + 1], marks[..i + 1]) == Filed(acc, pop[..i], marks[..i]) + (if marks[i] then [pop[i]] else [])
  {
    assert pop[..i + 1][..i] == pop[..i];
    assert marks[..i + 1][..i] == marks[..i];
  }

  /** indent(x): four spaces per level, none for x <= 0. */
  function Indent(x: int): (r: string)
    ensures |r| == 4 * Max(x, 0)
    ensures forall i :: 0 <= i < |r| ==> r[i] == ' '
    decreases x
  {
    if x <= 0 then "" else Indent(x - 1) + "    "
  }

  /** open(tag, attributes): `<tag attributes>` and a line break. */
  function Open(tag: string, attributes: string): string
  {
    "<" + tag + " " + attributes + ">\n"
  }

  /** close(tag): `</tag>` and a line break. */
  function Close(tag: string): string
  {
    "</" + tag + ">\n"
  }

  /** textContentElement(tag, value): `<tag>value</tag>` and a line break. */
  function TextContentElement(tag: string, value: string): string
  {
    "<" + tag + ">" + value + "</" + tag + ">\n"
  }

  /** The index of the first c in s, or |s| when there is none. */
  function Find(s: string, c: char): (i: nat)
    ensures i <= |s| && (i < |s| ==> s[i] == c)
    ensures forall j :: 0 <= j < i ==> s[j] != c
  {
    if s == [] || s[0] == c then 0
    else
      var i := Find(s[1..], c);
      assert forall j :: 1 <= j <= i ==> s[j] == s[1..][j - 1];
      1 + i
  }

  lemma FindAfter(s: string, t: string, c: char)
    requires c !in s && |t| > 0 && t[0] == c
    ensures Find(s + t, c) == |s|
  {
    assert (s + t)[|s|] == c;
    assert forall j :: 0 <= j < |s| ==> (s + t)[j] == s[j];
  }

  /** Reads an element written by TextContentElement back: its tag and its
      value, or None when the text is not such an element. */
  function ReadTextElement(s: string): Option<(string, string)>
  {
    if |s| == 0 || s[0] != '<' then None
    else
      var body := s[1..];
      var k := Find(body, '>');
      if k == |body| then None
      else
        var tag := body[..k];
        var rest := body[k + 1..];
        var m := Find(rest, '<');
        if rest[m..] == "</" + tag + ">\n" then Some((tag, rest[..m])) else None
  }

  /** Reads an opening tag written by Open back: its tag and its attribute
      text. */
  function ReadOpen(s: string): Option<(string, string)>
  {
    if |s| < 3 || s[0] != '<' || s[|s| - 2..] != ">\n" then None
    else
      var body := s[1..|s| - 2];
      var k := Find(body, ' ');
      if k == |body| then None else Some((body[..k], body[k + 1..]))
  }

  /** Reads a closing tag written by Close back: its tag. */
  function ReadClose(s: string): Option<string>
  {
    if |s| < 4 || s[..2] != "</" || s[|s| - 2..] != ">\n" then None else Some(s[2..|s| - 2])
  }

  /** A text element gives back its tag and value when the tag holds no
      '>' and the value no '<'. */
  lemma TextContentElementRoundTrip(tag: string, value: string)
    requires '>' !in tag && '<' !in value
    ensures ReadTextElement(TextContentElement(tag, value)) == Some((tag, value))
  {
    var s := TextContentElement(tag, value);
    var body := s[1..];
    assert body == tag + (">" + value + "</" + tag + ">\n");
    FindAfter(tag, ">" + value + "</" + tag + ">\n", '>');
    var rest := body[|tag| + 1..];
    assert rest == value + ("</" + tag + ">\n");
    FindAfter(value, "</" + tag + ">\n", '<');
  }

  /** Opening and closing tags give back their tag (and the attribute text)
      when the tag holds no space. */
  lemma OpenCloseRoundTrip(tag: string, attributes: string)
    requires ' ' !in tag
    ensures ReadOpen(Open(tag, attributes)) == Some((tag, attributes))
    ensures ReadClose(Close(tag)) == Some(tag)
  {
    var s := Open(tag, attributes);
    var body := s[1..|s| - 2];
    assert body == tag + (" " + attributes);
    FindAfter(tag, " " + attributes, ' ');
    var t := Close(tag);
    assert t[..2] == "</" && t[2..|t| - 2] == tag;
  }

  /** String.valueOf of a nullable Integer or Long. */
  function Render(v: Option<int>): string
  {
    if v.None? then "null" else Decimal(v.value)
  }

  /** String.valueOf of a nullable action. */
  function RenderAction(a: Option<StepType>): string
  {
    if a.None? then "null" else a.value.name
  }

  /** The fields toXml writes. */
  datatype StepFields = StepFields(id: Option<int>, action: Option<StepType>, evaluationCount: Option<int>,
                                   champFitness: Option<int>, archiveSize: Option<int>,
                                   speciesSize: Option<int>, runTime: int)

  /** A text element written only when its field is set. */
  function Optional(tag: string, v: Option<int>): seq<(string, string)>
  {
    if v.None? then [] else [(tag, Decimal(v.value))]
  }

  /** The text elements toXml writes after the opening tag, as (tag, text), in
      order: the action always, the time elements always, the counters only
      when set. Both time elements hold runTime. */
  function Elements(f: StepFields): (es: seq<(string, string)>)
    ensures |es| >= 3 && es[0] == (ActionTag, RenderAction(f.action))
    ensures (IecEvalTimeTag, Decimal(f.runTime)) in es && (RuntimeTag, Decimal(f.runTime)) in es
  {
    var es := [(ActionTag, RenderAction(f.action))]
      + Optional(EvaluationCountTag, f.evaluationCount)
      + [(IecEvalTimeTag, Decimal(f.runTime))] + [(RuntimeTag, Decimal(f.runTime))]
      + Optional(ChampFitnessTag, f.champFitness)
      + Optional(ArchiveTag, f.archiveSize)
      + Optional(SpeciesTag, f.speciesSize);
    assert es[|Optional(EvaluationCountTag, f.evaluationCount)| + 1] == (IecEvalTimeTag, Decimal(f.runTime));
    assert es[|Optional(EvaluationCountTag, f.evaluationCount)| + 2] == (RuntimeTag, Decimal(f.runTime));
    es
  }

  predicate HasTag(es: seq<(string, string)>, tag: string)
  {
    exists i :: 0 <= i < |es| && es[i].0 == tag
  }

  lemma HasTagAppend(a: seq<(string, string)>, b: seq<(string, string)>, tag: string)
    ensures HasTag(a + b, tag) <==> HasTag(a, tag) || HasTag(b, tag)
  {
    if HasTag(a + b, tag) {
      var i :| 0 <= i < |a + b| && (a + b)[i].0 == tag;
      if i >= |a| {
        assert b[i - |a|].0 == tag;
      }
    }
    if HasTag(a, tag) {
      var i :| 0 <= i < |a| && a[i].0 == tag;
      assert (a + b)[i].0 == tag;
    }
    if HasTag(b, tag) {
      var i :| 0 <= i < |b| && b[i].0 == tag;
      assert (a + b)[|a| + i].0 == tag;
    }
  }

  lemma HasTagShort(q: seq<(string, string)>, tag: string)
    requires |q| <= 1
    ensures HasTag(q, tag) <==> |q| == 1 && q[0].0 == tag
  {
    if |q| == 1 && q[0].0 == tag {
      assert 0 <= 0 < |q| && q[0].0 == tag;
    }
  }

  /** The tags toXml writes: the action and the two time elements always, a
      counter's exactly when it is set. */
  lemma ElementsTags(f: StepFields, tag: string)
    ensures HasTag(Elements(f), tag) <==>
              || tag == ActionTag || tag == IecEvalTimeTag || tag == RuntimeTag
              || (tag == EvaluationCountTag && f.evaluationCount.Some?)
              || (tag == ChampFitnessTag && f.champFitness.Some?)
              || (tag == ArchiveTag && f.archiveSize.Some?)
              || (tag == SpeciesTag && f.speciesSize.Some?)
  {
    var a := [(ActionTag, RenderAction(f.action))];
    var e := Optional(EvaluationCountTag, f.evaluationCount);
    var t1 := [(IecEvalTimeTag, Decimal(f.runTime))];
    var t2 := [(RuntimeTag, Decimal(f.runTime))];
    var c := Optional(ChampFitnessTag, f.champFitness);
    var r := Optional(ArchiveTag, f.archiveSize);
    var s := Optional(SpeciesTag, f.speciesSize);
    assert Elements(f) == a + e + t1 + t2 + c + r + s;
    HasTagAppend(a, e, tag);
    HasTagAppend(a + e, t1, tag);
    HasTagAppend(a + e + t1, t2, tag);
    HasTagAppend(a + e + t1 + t2, c, tag);
    HasTagAppend(a + e + t1 + t2 + c, r, tag);
    HasTagAppend(a + e + t1 + t2 + c + r, s, tag);
    HasTagShort(a, tag);
    HasTagShort(e, tag);
    HasTagShort(t1, tag);
    HasTagShort(t2, tag);
    HasTagShort(c, tag);
    HasTagShort(r, tag);
    HasTagShort(s, tag);
  }

  /** A counter's element is written exactly when the counter is set, and then
      holds its decimal value. */
  lemma ElementsOptional(f: StepFields)
    ensures HasTag(Elements(f), EvaluationCountTag) <==> f.evaluationCount.Some?
    ensures HasTag(Elements(f), ChampFitnessTag) <==> f.champFitness.Some?
    ensures HasTag(Elements(f), ArchiveTag) <==> f.archiveSize.Some?
    ensures HasTag(Elements(f), SpeciesTag) <==> f.speciesSize.Some?
    ensures f.evaluationCount.Some? ==> (EvaluationCountTag, Decimal(f.evaluationCount.value)) in Elements(f)
    ensures f.champFitness.Some? ==> (ChampFitnessTag, Decimal(f.champFitness.value)) in Elements(f)
    ensures f.archiveSize.Some? ==> (ArchiveTag, Decimal(f.archiveSize.value)) in Elements(f)
    ensures f.speciesSize.Some? ==> (SpeciesTag, Decimal(f.speciesSize.value)) in Elements(f)
  {
    ElementsTags(f, EvaluationCountTag);
    ElementsTags(f, ChampFitnessTag);
    ElementsTags(f, ArchiveTag);
    ElementsTags(f, SpeciesTag);
    var e := Optional(EvaluationCountTag, f.evaluationCount);
    var c := Optional(ChampFitnessTag, f.champFitness);
    var r := Optional(ArchiveTag, f.archiveSize);
    var s := Optional(SpeciesTag, f.speciesSize);
    assert Elements(f) == [(ActionTag, RenderAction(f.action))] + e
      + [(IecEvalTimeTag, Decimal(f.runTime))] + [(RuntimeTag, Decimal(f.runTime))] + c + r + s;
  }

  /** The text elements, each on its own line at indent level 3. */
  function ElementsXml(es: seq<(string, string)>): string
  {
    if es == [] then ""
    else
      var last := es[|es| - 1];
      ElementsXml(es[..|es| - 1]) + Indent(3) + TextContentElement(last.0, last.1)
  }

  /** Writing two runs of elements one after the other writes their
      concatenation. */
  lemma {:induction false} ElementsXmlAppend(a: seq<(string, string)>, b: seq<(string, string)>)
    ensures ElementsXml(a + b) == ElementsXml(a) + ElementsXml(b)
    decreases |b|
  {
    if b == [] {
      assert a + b == a;
    } else {
      var b' := b[..|b| - 1];
      assert (a + b)[..|a + b| - 1] == a + b';
      ElementsXmlAppend(a, b');
    }
  }

  /** The chromosomes toXml writes: those pinned as a solution or selected, in
      population order, each written with its two flags set to its
      membership. */
  function ChromosomesXml(pop: seq<Chromosome>, solutions: seq<Chromosome>, selected: seq<Chromosome>,
                          chromosomeXml: (int, bool, bool) -> string): string
  {
    if pop == [] then ""
    else
      var c := pop[|pop| - 1];
      ChromosomesXml(pop[..|pop| - 1], solutions, selected, chromosomeXml)
        + (if c in solutions || c in selected then chromosomeXml(c.id, c in solutions, c in selected) else "")
  }

  /** The opening tag's attribute: the id, or "null" when it is not set. */
  function IdAttribute(id: Option<int>): string
  {
    StepIdTag + "=\"" + Render(id) + "\""
  }

  /** The whole fragment toXml returns. */
  function StepXml(f: StepFields, chromosomes: string): string
  {
    Indent(2) + Open(IecStepTag, IdAttribute(f.id)) + ElementsXml(Elements(f)) + chromosomes
      + Indent(2) + Close(IecStepTag)
  }

  class IecStep {
    var id: Option<int>
    var action: Option<StepType>
    var champFitness: Option<int>
    var population: seq<Chromosome>
    var selected: seq<Chromosome>
    var unselected: seq<Chromosome>
    var solutions: seq<Chromosome>
    var evaluationCount: Option<int>
    var speciesSize: Option<int>
    var archiveSize: Option<int>
    var startTime: int
    var iecEvalTime: int
    var runTime: int

    /** A step for the given id and action, taken at clock reading `now`,
        filled in from the genotype when there is one. That is update on a
        step whose lists are all empty: an empty population contains all of
        the genotype's chromosomes only when there are none (NothingInEmpty),
        so the population becomes the genotype's, and every list is filed
        from empty. */
    constructor (genotype: Option<Genotype>, anId: int, userAction: Option<StepType>, now: int)
      ensures id == Some(anId) && action == userAction
      ensures startTime == now && iecEvalTime == -1 && runTime == -1
      ensures genotype.None? ==>
                && population == [] && solutions == [] && selected == [] && unselected == []
                && champFitness.None? && evaluationCount.None? && speciesSize.None? && archiveSize.None?
      ensures genotype.Some? ==>
                var g := genotype.value;
                && speciesSize == Some(g.speciesCount) && archiveSize == Some(g.archiveSize)
                && evaluationCount == Some(g.evaluationCount) && champFitness == g.fittest
                && population == g.chromosomes
      ensures genotype.Some? ==>
                var g := genotype.value;
                && solutions == Filed([], g.chromosomes, Marks(g.chromosomes, Solution))
                && selected == Filed([], g.chromosomes, Marks(g.chromosomes, Selected))
                && unselected == Filed([], g.chromosomes, Marks(g.chromosomes, Unselected))
    {
      id := Some(anId);
      action := userAction;
      champFitness := None;
      population := [];
      selected := [];
      unselected := [];
      solutions := [];
      evaluationCount := None;
      speciesSize := None;
      archiveSize := None;
      startTime := now;
      iecEvalTime := -1;
      runTime := -1;
      if genotype.Some? {
        var g := genotype.value;
        speciesSize := Some(g.speciesCount);
        archiveSize := Some(g.archiveSize);
        evaluationCount := Some(g.evaluationCount);
        champFitness := g.fittest;
        population := g.chromosomes;
        var filedSolutions, filedSelected, filedUnselected := FileInto([], [], [], g.chromosomes);
        solutions, selected, unselected := filedSolutions, filedSelected, filedUnselected;
      }
      new;
      if genotype.Some? {
        MarksUnchanged(genotype.value.chromosomes);
      }
    }

    /** The copy constructor: every field copied, the lists as new lists with
        the same chromosomes. */
    constructor Copy(other: IecStep)
      ensures id == other.id && action == other.action && champFitness == other.champFitness
      ensures population == other.population && selected == other.selected
      ensures unselected == other.unselected && solutions == other.solutions
      ensures evaluationCount == other.evaluationCount && speciesSize == other.speciesSize
      ensures archiveSize == other.archiveSize
      ensures startTime == other.startTime && iecEvalTime == other.iecEvalTime && runTime == other.runTime
    {
      id := other.id;
      action := other.action;
      champFitness := other.champFitness;
      population := [] + other.population;
      selected := [] + other.selected;
      unselected := [] + other.unselected;
      solutions := [] + other.solutions;
      evaluationCount := other.evaluationCount;
      speciesSize := other.speciesSize;
      archiveSize := other.archiveSize;
      startTime := other.startTime;
      iecEvalTime := other.iecEvalTime;
      runTime := other.runTime;
    }

    /** update: take the genotype's counters, replace the population unless it
        already holds all of the genotype's chromosomes, then file every
        chromosome of the population under solutions, selected and (when it
        is neither) unselected, appending to what is there. Without a
        genotype the three counters are cleared. */
    method Update(genotype: Option<Genotype>)
      modifies this`speciesSize, this`archiveSize, this`evaluationCount, this`champFitness,
               this`population, this`solutions, this`selected, this`unselected
      ensures genotype.None? ==>
                && speciesSize.None? && archiveSize.None? && evaluationCount.None?
                && champFitness == old(champFitness) && population == old(population)
                && solutions == old(solutions) && selected == old(selected) && unselected == old(unselected)
      ensures genotype.Some? ==>
                && speciesSize == Some(genotype.value.speciesCount) && archiveSize == Some(genotype.value.archiveSize)
                && evaluationCount == Some(genotype.value.evaluationCount)
                && champFitness == (if genotype.value.fittest.Some? then genotype.value.fittest else old(champFitness))
      ensures genotype.Some? ==>
                population == if old(ContainsAll(population, genotype.value.chromosomes)) then old(population) else genotype.value.chromosomes
      ensures genotype.Some? ==> solutions == Filed(old(solutions), population, Marks(population, Solution))
      ensures genotype.Some? ==> selected == Filed(old(selected), population, Marks(population, Selected))
      ensures genotype.Some? ==> unselected == Filed(old(unselected), population, Marks(population, Unselected))
    {
      if genotype.Some? {
        var g := genotype.value;
        speciesSize := Some(g.speciesCount);
        archiveSize := Some(g.archiveSize);
        evaluationCount := Some(g.evaluationCount);
        if g.fittest.Some? {
          champFitness := g.fittest;
        }
        if !ContainsAll(population, g.chromosomes) {
          population := g.chromosomes;
        }
        FileAll();
      } else {
        speciesSize := None;
        archiveSize := None;
        evaluationCount := None;
      }
    }

    /** The filing loop of update: every chromosome of the population appended
        to the lists of its kinds. */
    method FileAll()
      modifies this`solutions, this`selected, this`unselected
      ensures solutions == Filed(old(solutions), population, Marks(population, Solution))
      ensures selected == Filed(old(selected), population, Marks(population, Selected))
      ensures unselected == Filed(old(unselected), population, Marks(population, Unselected))
    {
      var filedSolutions, filedSelected, filedUnselected := FileInto(solutions, selected, unselected, population);
      solutions, selected, unselected := filedSolutions, filedSelected, filedUnselected;
      MarksUnchanged(population);
    }

    /** The loop of update, over the three lists as values: every chromosome
        of the population appended to the lists of its kinds. */
    static method FileInto(solutions: seq<Chromosome>, selected: seq<Chromosome>, unselected: seq<Chromosome>,
                           population: seq<Chromosome>)
      returns (filedSolutions: seq<Chromosome>, filedSelected: seq<Chromosome>, filedUnselected: seq<Chromosome>)
      ensures filedSolutions == Filed(solutions, population, Marks(population, Solution))
      ensures filedSelected == Filed(selected, population, Marks(population, Selected))
      ensures filedUnselected == Filed(unselected, population, Marks(population, Unselected))
    {
      filedSolutions, filedSelected, filedUnselected := solutions, selected, unselected;
      for i := 0 to |population|
        invariant filedSolutions == Filed(solutions, population[..i], Marks(population, Solution)[..i])
        invariant filedSelected == Filed(selected, population[..i], Marks(population, Selected)[..i])
        invariant filedUnselected == Filed(unselected, population[..i], Marks(population, Unselected)[..i])
      {
        var chrom := population[i];
        FileStep(solutions, population, Solution, i);
        FileStep(selected, population, Selected, i);
        FileStep(unselected, population, Unselected, i);
        if chrom.isSolution {
          filedSolutions := filedSolutions + [chrom];
        }
        if chrom.isSelected {
          filedSelected := filedSelected + [chrom];
        }
        if !chrom.isSelected && !chrom.isSolution {
          filedUnselected := filedUnselected + [chrom];
        }
      }
      FileDone(solutions, selected, unselected, population);
    }

    /** One step of the filing loop: the i-th chromosome goes to the end of the
        list of kind k exactly when it has that kind. */
    static lemma FileStep(acc: seq<Chromosome>, population: seq<Chromosome>, k: Kind, i: nat)
      requires i < |population|
      ensures Filed(acc, population[..i + 1], Marks(population, k)[..i + 1]) ==
              Filed(acc, population[..i], Marks(population, k)[..i]) + (if HasKind(population[i], k) then [population[i]] else [])
    {
      FiledSnoc(acc, population, Marks(population, k), i);
      MarksAt(population, k, i);
    }

    static lemma FileDone(solutions: seq<Chromosome>, selected: seq<Chromosome>, unselected: seq<Chromosome>,
                          population: seq<Chromosome>)
      ensures Filed(solutions, population[..|population|], Marks(population, Solution)[..|population|]) ==
              Filed(solutions, population, Marks(population, Solution))
      ensures Filed(selected, population[..|population|], Marks(population, Selected)[..|population|]) ==
              Filed(selected, population, Marks(population, Selected))
      ensures Filed(unselected, population[..|population|], Marks(population, Unselected)[..|population|]) ==
              Filed(unselected, population, Marks(population, Unselected))
    {
      assert population[..|population|] == population;
      assert Marks(population, Solution)[..|population|] == Marks(population, Solution);
      assert Marks(population, Selected)[..|population|] == Marks(population, Selected);
      assert Marks(population, Unselected)[..|population|] == Marks(population, Unselected);
    }

    /** getChromosomes: set every chromosome's selected and solution flags to
        its membership in selected and solutions, and return the population. */
    method GetChromosomes() returns (r: seq<Chromosome>)
      modifies set c | c in population
      ensures r == population
      ensures forall c :: c in population ==> (c.isSelected <==> c in selected) && (c.isSolution <==> c in solutions)
    {
      for i := 0 to |population|
        invariant forall j :: 0 <= j < i ==>
                    (population[j].isSelected <==> population[j] in selected) &&
                    (population[j].isSolution <==> population[j] in solutions)
      {
        var chrom := population[i];
        chrom.isSelected := chrom in selected;
        chrom.isSolution := chrom in solutions;
      }
      r := [] + population;
    }

    /** The fields toXml writes, as they stand. */
    function Snapshot(): StepFields
      reads this`id, this`action, this`evaluationCount, this`champFitness, this`archiveSize,
            this`speciesSize, this`runTime
    {
      StepFields(id, action, evaluationCount, champFitness, archiveSize, speciesSize, runTime)
    }

    /** toXml: the step as an XML fragment (StepXml); each written chromosome is
        rendered by `chromosomeXml` from its id and its two flags, which are
        set to its membership for the call and restored afterwards. */
    method ToXml(chromosomeXml: (int, bool, bool) -> string) returns (xml: string)
      modifies set c | c in population
      ensures xml == StepXml(Snapshot(), ChromosomesXml(population, solutions, selected, chromosomeXml))
      ensures forall c :: c in population ==> c.isSolution == old(c.isSolution) && c.isSelected == old(c.isSelected)
    {
      xml := WriteHeader();
      xml := WriteChromosomes(xml, chromosomeXml);
      xml := xml + Indent(2) + Close(IecStepTag);
    }

    /** The opening tag and the text elements of toXml. */
    method WriteHeader() returns (xml: string)
      ensures xml == Indent(2) + Open(IecStepTag, IdAttribute(id)) + ElementsXml(Elements(Snapshot()))
    {
      ghost var es: seq<(string, string)> := [];
      var head := Indent(2) + Open(IecStepTag, IdAttribute(id));
      xml := head;
      xml, es := AppendElement(xml, es, head, ActionTag, RenderAction(action));
      xml, es := AppendCounter(xml, es, head, EvaluationCountTag, evaluationCount);
      xml, es := AppendElement(xml, es, head, IecEvalTimeTag, Decimal(runTime));
      xml, es := AppendElement(xml, es, head, RuntimeTag, Decimal(runTime));
      xml, es := AppendCounter(xml, es, head, ChampFitnessTag, champFitness);
      xml, es := AppendCounter(xml, es, head, ArchiveTag, archiveSize);
      xml, es := AppendCounter(xml, es, head, SpeciesTag, speciesSize);
      assert es == Elements(Snapshot());
    }

    /** The chromosome loop of toXml: each chromosome pinned as a solution or
        selected is written with its flags set to its membership, then its
        flags are put back. */
    method WriteChromosomes(xml0: string, chromosomeXml: (int, bool, bool) -> string) returns (xml: string)
      modifies set c | c in population
      ensures xml == xml0 + ChromosomesXml(population, solutions, selected, chromosomeXml)
      ensures forall c :: c in population ==> c.isSolution == old(c.isSolution) && c.isSelected == old(c.isSelected)
    {
      var pop, sols, sels := population, solutions, selected;
      xml := xml0;
      for i := 0 to |pop|
        invariant xml == xml0 + ChromosomesXml(pop[..i], sols, sels, chromosomeXml)
        invariant forall c :: c in pop ==> c.isSolution == old(c.isSolution) && c.isSelected == old(c.isSelected)
      {
        assert pop[..i + 1][..i] == pop[..i];
        xml := WriteChromosome(xml, pop[i], sols, sels, chromosomeXml);
      }
      assert pop[..|pop|] == pop;
    }

    /** One pass of that loop: a pinned chromosome is written with its flags
        set to its membership, and the flags are then put back. */
    static method WriteChromosome(xml0: string, chrom: Chromosome, sols: seq<Chromosome>, sels: seq<Chromosome>,
                                  chromosomeXml: (int, bool, bool) -> string)
      returns (xml: string)
      modifies chrom
      ensures xml == xml0 + (if chrom in sols || chrom in sels then chromosomeXml(chrom.id, chrom in sols, chrom in sels) else "")
      ensures chrom.isSolution == old(chrom.isSolution) && chrom.isSelected == old(chrom.isSelected)
    {
      xml := xml0;
      var isSolution := chrom.isSolution;
      var isSelected := chrom.isSelected;
      if chrom in sols || chrom in sels {
        chrom.isSolution := chrom in sols;
        chrom.isSelected := chrom in sels;
        xml := xml + chromosomeXml(chrom.id, chrom.isSolution, chrom.isSelected);
        chrom.isSolution := isSolution;
        chrom.isSelected := isSelected;
      }
    }

    /** One `indent(3) + textContentElement(tag, text)` append, tracking the
        elements written so far. */
    static method AppendElement(xml: string, ghost es: seq<(string, string)>, ghost head: string,
                                tag: string, text: string)
      returns (xml': string, ghost es': seq<(string, string)>)
      requires xml == head + ElementsXml(es)
      ensures es' == es + [(tag, text)]
      ensures xml' == head + ElementsXml(es')
    {
      xml' := xml + Indent(3) + TextContentElement(tag, text);
      es' := es + [(tag, text)];
      assert es'[..|es'| - 1] == es;
    }

    /** `if (v != null)` around one such append. */
    static method AppendCounter(xml: string, ghost es: seq<(string, string)>, ghost head: string,
                                tag: string, v: Option<int>)
      returns (xml': string, ghost es': seq<(string, string)>)
      requires xml == head + ElementsXml(es)
      ensures es' == es + Optional(tag, v)
      ensures xml' == head + ElementsXml(es')
    {
      if v.Some? {
        xml', es' := AppendElement(xml, es, head, tag, Decimal(v.value));
      } else {
        xml', es' := xml, es;
        assert es + [] == es;
      }
    }

    /** hasSolution: some chromosome is pinned as a solution. */
    predicate HasSolution(): (r: bool)
      reads this`solutions
      ensures r <==> solutions != []
    {
      |solutions| > 0
    }

    /** getChampConnectionCount: the first solution's link count, -1 when there
        is none. */
    function GetChampConnectionCount(): (r: int)
      reads this`solutions
      ensures r == -1 <==> !HasSolution()
      ensures HasSolution() ==> r == solutions[0].linkCount
    {
      if |solutions| == 0 then -1 else solutions[0].linkCount
    }

    /** getChampNodeCount: the first solution's node count, -1 when there is
        none. */
    function GetChampNodeCount(): (r: int)
      reads this`solutions
      ensures r == -1 <==> !HasSolution()
      ensures HasSolution() ==> r == solutions[0].nodeCount
    {
      if |solutions| == 0 then -1 else solutions[0].nodeCount
    }
  }
}
