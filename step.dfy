/** The log reader's view of one step (the maze domain's Step record): a
    step element's id, action, counters and chromosome children. The tag
    constants are modelled as the source declares them; the intended set
    (each counter under its own name, the step guard on the step tag) is a
    second instance of the same reader, so the two can be compared. */
module Step {
  import opened Common
  import opened Text

  /** The user actions a step records. */
  datatype Action = FITNESS | NOVELTY | STEP | UNDEFINED

  /** parseAction: the three action names in any case, anything else
      UNDEFINED. */
  function ParseAction(text: string): Action
  {
    if EqualsIgnoreCase(text, "fitness") then FITNESS
    else if EqualsIgnoreCase(text, "novelty") then NOVELTY
    else if EqualsIgnoreCase(text, "step") then STEP
    else UNDEFINED
  }

  /** Each action is parsed from exactly its own name, ignoring case, and
      every other text falls back to UNDEFINED. */
  lemma ParseActionCases(text: string)
    ensures ParseAction(text) == FITNESS <==> EqualsIgnoreCase(text, "fitness")
    ensures ParseAction(text) == NOVELTY <==> EqualsIgnoreCase(text, "novelty")
    ensures ParseAction(text) == STEP <==> EqualsIgnoreCase(text, "step")
    ensures ParseAction(text) == UNDEFINED <==>
              !EqualsIgnoreCase(text, "fitness") && !EqualsIgnoreCase(text, "novelty") && !EqualsIgnoreCase(text, "step")
  {
    if EqualsIgnoreCase(text, "novelty") {
      assert FoldCase(text[0]) == 'n' != FoldCase("fitness"[0]);
    }
  }

  /** The long s and the dotless i fold onto ASCII letters as in Java, so
      these spellings name actions; a non-letter in place of a letter does
      not. */
  lemma ParseActionFoldsNonAscii()
    ensures ParseAction([LongS] + "tep") == STEP
    ensures ParseAction("f" + [DotlessSmallI] + "tness") == FITNESS
    ensures ParseAction("N" + [KelvinSign] + "velty") == UNDEFINED
  {
    assert EqualsIgnoreCase([LongS] + "tep", "step");
    assert EqualsIgnoreCase("f" + [DotlessSmallI] + "tness", "fitness");
    var t := "N" + [KelvinSign] + "velty";
    assert FoldCase(t[1]) != FoldCase("novelty"[1]);
    assert FoldCase(t[0]) != FoldCase("fitness"[0]) && FoldCase(t[0]) != FoldCase("step"[0]);
  }

  /** Texts equal up to case parse to the same action. */
  lemma ParseActionIgnoresCase(s: string, t: string)
    requires EqualsIgnoreCase(s, t)
    ensures ParseAction(s) == ParseAction(t)
  {
    forall w: string | EqualsIgnoreCase(s, w)
      ensures EqualsIgnoreCase(t, w)
    {
      EqualsIgnoreCaseTransitive(t, s, w);
    }
    forall w: string | EqualsIgnoreCase(t, w)
      ensures EqualsIgnoreCase(s, w)
    {
      EqualsIgnoreCaseTransitive(s, t, w);
    }
  }

  const StepTag: string := "step"
  const IdTag: string := "id"
  const ActionTag: string := "action"
  const EvaluationsTag: string := "evaluations"
  /** Declared equal to the action tag. */
  const ChampFitnessTag: string := "action"
  const ArchiveTag: string := "archive"
  /** Declared equal to the action tag. */
  const SpeciesTag: string := "action"
  const ChromosomeTag: string := "chromosome"
  const SelectionTag: string := "selection"
  const SolutionTag: string := "solution"
  const FitnessScoreTag: string := "fitness"
  const NoveltyScoreTag: string := "novelty"
  const NodeCountTag: string := "nodes"
  const ConnectionCountTag: string := "connections"

  /** The names the reader compares against that differ between the source
      and its evident intent: the guard on the step element's own name, the
      champion-fitness tag and the species tag. */
  datatype Tags = Tags(stepGuard: string, champFitness: string, species: string)

  /** As written: the guard is the literal text "STEP_TAG", and both counter
      tags are "action". */
  const AsWritten: Tags := Tags("STEP_TAG", ChampFitnessTag, SpeciesTag)

  /** As intended: the step tag, and the names the step writer uses. */
  const Intended: Tags := Tags(StepTag, "champFitness", "species")

  /** Boolean.parseBoolean. */
  predicate ParseBoolean(text: string)
  {
    EqualsIgnoreCase(text, "true")
  }

  /** What a chromosome child holds once read. */
  datatype ChromosomeRecord = ChromosomeRecord(selected: bool, solved: bool, fitness: int, novelty: int,
                                               nodes: int, connections: int)

  const DefaultChromosome: ChromosomeRecord := ChromosomeRecord(false, false, 0, 0, 0, 0)

  /** One child of a chromosome element, by exact name. */
  function ReadChromosomeChild(c: ChromosomeRecord, child: XmlNode, getLong: XmlNode -> int): ChromosomeRecord
  {
    if child.name == SelectionTag then c.(selected := ParseBoolean(child.text))
    else if child.name == SolutionTag then c.(solved := ParseBoolean(child.text))
    else if child.name == FitnessScoreTag then c.(fitness := getLong(child))
    else if child.name == NoveltyScoreTag then c.(novelty := getLong(child))
    else if child.name == NodeCountTag then c.(nodes := getLong(child))
    else if child.name == ConnectionCountTag then c.(connections := getLong(child))
    else c
  }

  function ReadChromosomeChildren(c: ChromosomeRecord, children: seq<XmlNode>, getLong: XmlNode -> int)
    : ChromosomeRecord
  {
    if children == [] then c
    else
      var n := |children| - 1;
      ReadChromosomeChild(ReadChromosomeChildren(c, children[..n], getLong), children[n], getLong)
  }

  /** The chromosome constructor's guard: the literal text "CHROMOSOME_TAG". */
  predicate ChromosomeGuard(node: XmlNode)
  {
    EqualsIgnoreCase(node.name, "CHROMOSOME_TAG")
  }

  /** new Chromosome(node): the record, and the id the constructor writes.
      The inner class has no id of its own, so that write lands on the
      enclosing step. */
  function ReadChromosome(node: XmlNode, getLong: XmlNode -> int, getAttribute: (XmlNode, string) -> int)
    : (ChromosomeRecord, Option<int>)
  {
    if ChromosomeGuard(node) then
      (ReadChromosomeChildren(DefaultChromosome, node.children, getLong), Some(getAttribute(node, IdTag)))
    else (DefaultChromosome, None)
  }

  /** A child the step dispatches to the chromosome constructor is named
      exactly "chromosome", which the constructor's guard never accepts: the
      record keeps every default and the step's id is left alone. */
  lemma DispatchedChromosomeIsDefault(node: XmlNode, getLong: XmlNode -> int,
                                      getAttribute: (XmlNode, string) -> int)
    requires node.name == ChromosomeTag
    ensures ReadChromosome(node, getLong, getAttribute) == (DefaultChromosome, None)
  {
    assert |ChromosomeTag| != |"CHROMOSOME_TAG"|;
  }

  /** The fields of a step. */
  datatype StepRecord = StepRecord(id: int, action: Option<Action>, evaluations: int, champFitness: int,
                                   archiveCount: int, speciesCount: int, chromosomes: seq<ChromosomeRecord>)

  /** The field defaults: zero counters, no action, no chromosomes. */
  const Initial: StepRecord := StepRecord(0, None, 0, 0, 0, 0, [])

  /** One child of the step element: the first tag it equals exactly decides
      the field it sets. */
  function ReadChild(r: StepRecord, child: XmlNode, tags: Tags, getLong: XmlNode -> int,
                     getAttribute: (XmlNode, string) -> int): StepRecord
  {
    if child.name == ActionTag then r.(action := Some(ParseAction(child.text)))
    else if child.name == EvaluationsTag then r.(evaluations := getLong(child))
    else if child.name == tags.champFitness then r.(champFitness := getLong(child))
    else if child.name == ArchiveTag then r.(archiveCount := getLong(child))
    else if child.name == tags.species then r.(speciesCount := getLong(child))
    else if child.name == ChromosomeTag then
      var (c, id) := ReadChromosome(child, getLong, getAttribute);
      r.(chromosomes := r.chromosomes + [c], id := if id.Some? then id.value else r.id)
    else r
  }

  /** The sibling walk over the children, in document order. */
  function ReadChildren(r: StepRecord, children: seq<XmlNode>, tags: Tags, getLong: XmlNode -> int,
                        getAttribute: (XmlNode, string) -> int): StepRecord
  {
    if children == [] then r
    else
      var n := |children| - 1;
      ReadChild(ReadChildren(r, children[..n], tags, getLong, getAttribute), children[n], tags, getLong, getAttribute)
  }

  /** Step(node): the fields are read only when the element's name passes
      the guard; otherwise every field keeps its default. */
  function Read(node: XmlNode, tags: Tags, getLong: XmlNode -> int, getAttribute: (XmlNode, string) -> int)
    : StepRecord
  {
    if EqualsIgnoreCase(node.name, tags.stepGuard) then
      ReadChildren(Initial.(id := getAttribute(node, IdTag)), node.children, tags, getLong, getAttribute)
    else Initial
  }

  /** As written, a step element named "step" (or any other name but
      "STEP_TAG" up to case) is not read at all. */
  lemma AsWrittenSkipsStepElement(node: XmlNode, getLong: XmlNode -> int, getAttribute: (XmlNode, string) -> int)
    requires !EqualsIgnoreCase(node.name, "STEP_TAG")
    ensures Read(node, AsWritten, getLong, getAttribute) == Initial
  {
  }

  /** The step writer names its element "step": as written, such an element
      reads as all defaults. */
  lemma AsWrittenIgnoresStepTag(node: XmlNode, getLong: XmlNode -> int, getAttribute: (XmlNode, string) -> int)
    requires node.name == StepTag
    ensures Read(node, AsWritten, getLong, getAttribute) == Initial
  {
    assert |StepTag| != |"STEP_TAG"|;
  }

  /** With the intended guard, a step element named "step" in any case is
      read: its id comes from the id attribute. */
  lemma IntendedReadsStepElement(node: XmlNode, getLong: XmlNode -> int, getAttribute: (XmlNode, string) -> int)
    requires EqualsIgnoreCase(node.name, StepTag)
    ensures Read(node, Intended, getLong, getAttribute) ==
              ReadChildren(Initial.(id := getAttribute(node, IdTag)), node.children, Intended, getLong, getAttribute)
  {
  }

  /** As written, the champion-fitness and species branches sit behind the
      action branch under the same tag, so those two fields are never set. */
  lemma {:induction false} AsWrittenNeverSetsChampFitness(r: StepRecord, children: seq<XmlNode>,
                                                          getLong: XmlNode -> int,
                                                          getAttribute: (XmlNode, string) -> int)
    ensures ReadChildren(r, children, AsWritten, getLong, getAttribute).champFitness == r.champFitness
    ensures ReadChildren(r, children, AsWritten, getLong, getAttribute).speciesCount == r.speciesCount
  {
    if children != [] {
      AsWrittenNeverSetsChampFitness(r, children[..|children| - 1], getLong, getAttribute);
    }
  }

  /** The last child with the given exact name, if any. */
  function LastNamed(children: seq<XmlNode>, name: string): (r: Option<XmlNode>)
    ensures r.Some? ==> r.value in children && r.value.name == name
    ensures r.None? ==> forall i :: 0 <= i < |children| ==> children[i].name != name
  {
    if children == [] then None
    else
      var n := |children| - 1;
      if children[n].name == name then Some(children[n]) else LastNamed(children[..n], name)
  }

  /** When a tag repeats, the last child with it decides the field: the
      action, the evaluations and the archive count. */
  lemma {:induction false} LastChildWins(r: StepRecord, children: seq<XmlNode>, tags: Tags,
                                         getLong: XmlNode -> int, getAttribute: (XmlNode, string) -> int)
    requires tags.champFitness != ArchiveTag
    ensures var s := ReadChildren(r, children, tags, getLong, getAttribute);
            && s.action == (if LastNamed(children, ActionTag).Some?
                            then Some(ParseAction(LastNamed(children, ActionTag).value.text)) else r.action)
            && s.evaluations == (if LastNamed(children, EvaluationsTag).Some?
                                 then getLong(LastNamed(children, EvaluationsTag).value) else r.evaluations)
            && s.archiveCount == (if LastNamed(children, ArchiveTag).Some?
                                  then getLong(LastNamed(children, ArchiveTag).value) else r.archiveCount)
  {
    if children != [] {
      LastChildWins(r, children[..|children| - 1], tags, getLong, getAttribute);
    }
  }

  /** With the intended tags, the last champFitness child and the last
      species child set those fields. */
  lemma {:induction false} IntendedCountersRead(r: StepRecord, children: seq<XmlNode>,
                                                getLong: XmlNode -> int, getAttribute: (XmlNode, string) -> int)
    ensures var s := ReadChildren(r, children, Intended, getLong, getAttribute);
            && s.champFitness == (if LastNamed(children, "champFitness").Some?
                                  then getLong(LastNamed(children, "champFitness").value) else r.champFitness)
            && s.speciesCount == (if LastNamed(children, "species").Some?
                                  then getLong(LastNamed(children, "species").value) else r.speciesCount)
  {
    if children != [] {
      IntendedCountersRead(r, children[..|children| - 1], getLong, getAttribute);
    }
  }

  /** The children named exactly "chromosome", in document order. */
  function ChromosomeChildren(children: seq<XmlNode>): (r: seq<XmlNode>)
    ensures |r| <= |children|
    ensures forall i :: 0 <= i < |r| ==> r[i].name == ChromosomeTag
  {
    if children == [] then []
    else
      var n := |children| - 1;
      ChromosomeChildren(children[..n]) + (if children[n].name == ChromosomeTag then [children[n]] else [])
  }

  /** One record per chromosome child, appended in document order; as
      written each record holds only the defaults, and the id is not
      touched by them. */
  lemma {:induction false} ChromosomesInOrder(r: StepRecord, children: seq<XmlNode>, tags: Tags,
                                              getLong: XmlNode -> int, getAttribute: (XmlNode, string) -> int)
    requires tags.champFitness != ChromosomeTag && tags.species != ChromosomeTag
    ensures var s := ReadChildren(r, children, tags, getLong, getAttribute);
            && |s.chromosomes| == |r.chromosomes| + |ChromosomeChildren(children)|
            && s.chromosomes[..|r.chromosomes|] == r.chromosomes
            && (forall i :: |r.chromosomes| <= i < |s.chromosomes| ==> s.chromosomes[i] == DefaultChromosome)
            && s.id == r.id
  {
    if children != [] {
      var n := |children| - 1;
      ChromosomesInOrder(r, children[..n], tags, getLong, getAttribute);
      var c := children[n];
      if c.name == ChromosomeTag {
        DispatchedChromosomeIsDefault(c, getLong, getAttribute);
      }
    }
  }

  /** The step record, a class because its constructor and setId assign its
      fields in place. */
  class Step {
    var id: int
    var action: Option<Action>
    var evaluations: int
    var champFitness: int
    var archiveCount: int
    var speciesCount: int
    var chromosomes: seq<ChromosomeRecord>

    function Record(): StepRecord
      reads this
    {
      StepRecord(id, action, evaluations, champFitness, archiveCount, speciesCount, chromosomes)
    }

    /** Step(xmlNode) under the given tag names; the source's own are
        AsWritten. Util.getLong is not part of this model: getLong(child) and
        getAttribute(node, tag) stand for its two forms. */
    constructor (node: XmlNode, tags: Tags, getLong: XmlNode -> int, getAttribute: (XmlNode, string) -> int)
      ensures Record() == Read(node, tags, getLong, getAttribute)
    {
      id, action, evaluations, champFitness, archiveCount, speciesCount, chromosomes := 0, None, 0, 0, 0, 0, [];
      new;
      if EqualsIgnoreCase(node.name, tags.stepGuard) {
        id := getAttribute(node, IdTag);
        var children := node.children;
        var i := 0;
        while i < |children|
          invariant 0 <= i <= |children|
          invariant Record() == ReadChildren(Initial.(id := getAttribute(node, IdTag)), children[..i], tags,
                                             getLong, getAttribute)
        {
          var child := children[i];
          assert children[..i + 1][..i] == children[..i];
          if child.name == ActionTag {
            action := Some(ParseAction(child.text));
          } else if child.name == EvaluationsTag {
            evaluations := getLong(child);
          } else if child.name == tags.champFitness {
            champFitness := getLong(child);
          } else if child.name == ArchiveTag {
            archiveCount := getLong(child);
          } else if child.name == tags.species {
            speciesCount := getLong(child);
          } else if child.name == ChromosomeTag {
            var c := new Chromosome(child, this, getLong, getAttribute);
            chromosomes := chromosomes + [c.Record()];
          }
          i := i + 1;
        }
        assert children[..|children|] == children;
      }
    }

    /** setId: a negative id is ignored. */
    method SetId(i: int)
      modifies this`id
      ensures id == (if i >= 0 then i else old(id))
    {
      if i >= 0 {
        id := i;
      }
    }
  }

  /** The inner chromosome class: its constructor reads the element's
      children into its fields, and assigns the enclosing step's id. */
  class Chromosome {
    var selected: bool
    var solved: bool
    var fitness: int
    var novelty: int
    var nodes: int
    var connections: int

    function Record(): ChromosomeRecord
      reads this
    {
      ChromosomeRecord(selected, solved, fitness, novelty, nodes, connections)
    }

    constructor (node: XmlNode, outer: Step, getLong: XmlNode -> int, getAttribute: (XmlNode, string) -> int)
      modifies outer`id
      ensures Record() == ReadChromosome(node, getLong, getAttribute).0
      ensures outer.id == (var id := ReadChromosome(node, getLong, getAttribute).1;
                           if id.Some? then id.value else old(outer.id))
    {
      selected, solved, fitness, novelty, nodes, connections := false, false, 0, 0, 0, 0;
      new;
      if ChromosomeGuard(node) {
        outer.id := getAttribute(node, IdTag);
        var children := node.children;
        var i := 0;
        while i < |children|
          invariant 0 <= i <= |children|
          invariant outer.id == getAttribute(node, IdTag)
          invariant Record() == ReadChromosomeChildren(DefaultChromosome, children[..i], getLong)
        {
          var child := children[i];
          assert children[..i + 1][..i] == children[..i];
          if child.name == SelectionTag {
            selected := ParseBoolean(child.text);
          } else if child.name == SolutionTag {
            solved := ParseBoolean(child.text);
          } else if child.name == FitnessScoreTag {
            fitness := getLong(child);
          } else if child.name == NoveltyScoreTag {
            novelty := getLong(child);
          } else if child.name == NodeCountTag {
            nodes := getLong(child);
          } else if child.name == ConnectionCountTag {
            connections := getLong(child);
          }
          i := i + 1;
        }
        assert children[..|children|] == children;
      }
    }
  }
}
