/**
 * The stateful side of the project gallery: the manager that holds the
 * current filter and re-renders the cards, and the expandable description
 * of one card with its "Read More" / "Read Less" button.
 */
module Gallery {
  import opened Wrappers
  import opened Projects

  const ReadMoreLabel: string := "Read More"
  const ReadLessLabel: string := "Read Less"

  /** What one card's description shows: its text and its button's text. */
  datatype DescriptionState = DescriptionState(text: string, buttonText: string)

  function Collapsed(p: Project): DescriptionState {
    DescriptionState(Truncate(p.description), ReadMoreLabel)
  }

  function Expanded(p: Project): DescriptionState {
    DescriptionState(p.description, ReadLessLabel)
  }

  /** The two states a card's description moves between. */
  predicate Shows(s: DescriptionState, p: Project) {
    s == Collapsed(p) || s == Expanded(p)
  }

  /**
   * One click on the button: the button text alone decides the direction. "Read
   * Less" collapses to the truncated text; any other text expands.
   */
  function Toggle(s: DescriptionState, p: Project): (r: DescriptionState)
    ensures Shows(r, p)
    ensures r.buttonText == ReadLessLabel <==> s.buttonText != ReadLessLabel
    ensures s.buttonText == ReadLessLabel ==> r.text == Truncate(p.description)
    ensures s.buttonText != ReadLessLabel ==> r.text == p.description
  {
    if s.buttonText == ReadLessLabel then Collapsed(p) else Expanded(p)
  }

  /** Two clicks in a row bring back both the text and the buttonText. */
  lemma ToggleTwice(s: DescriptionState, p: Project)
    requires Shows(s, p)
    ensures Toggle(Toggle(s, p), p) == s
  {
  }

  /**
   * A freshly rendered card that has the button starts collapsed, and the
   * first click shows different text unless the description already ends
   * in the ellipsis right after the cut.
   */
  lemma RenderedCardStartsCollapsed(p: Project)
    ensures CreateCard(p).readMore ==> DescriptionState(CreateCard(p).text, ReadMoreLabel) == Collapsed(p)
    ensures CreateCard(p).readMore && p.description[MaxLength..] != Ellipsis ==>
      Expanded(p).text != Collapsed(p).text
  {
  }

  /** The description element of one rendered card together with its button. */
  class DescriptionView {
    var text: string
    var buttonText: string
    const projectId: int

    /** The view of a card that has a "Read More" button, as first rendered. */
    constructor (card: Card)
      requires card.readMore
      ensures text == card.text && buttonText == ReadMoreLabel && projectId == card.id
    {
      text := card.text;
      buttonText := ReadMoreLabel;
      projectId := card.id;
    }

    function State(): DescriptionState
      reads this
    {
      DescriptionState(text, buttonText)
    }
  }

  class ProjectManager {
    const projects: seq<Project>
    var currentFilter: string

    constructor (projects: seq<Project>)
      ensures this.projects == projects && currentFilter == AllFilter
    {
      this.projects := projects;
      currentFilter := AllFilter;
    }

    /** The cards of the records the current filter keeps, one per record, in order. */
    method RenderProjects() returns (cards: seq<Card>)
      ensures |cards| == |Filter(projects, currentFilter)|
      ensures forall i :: 0 <= i < |cards| ==> cards[i] == CreateCard(Filter(projects, currentFilter)[i])
      ensures currentFilter == AllFilter ==> |cards| == |projects|
      ensures forall i :: 0 <= i < |cards| ==>
        currentFilter == AllFilter || cards[i].category == currentFilter
    {
      var filtered := Filter(projects, currentFilter);
      cards := [];
      var i := 0;
      while i < |filtered|
        invariant 0 <= i <= |filtered|
        invariant |cards| == i
        invariant forall k :: 0 <= k < i ==> cards[k] == CreateCard(filtered[k])
      {
        cards := cards + [CreateCard(filtered[i])];
        i := i + 1;
      }
    }

    /** A filter button click: remember its `data-filter` value and re-render. */
    method SelectFilter(filter: string) returns (cards: seq<Card>)
      modifies this`currentFilter
      ensures currentFilter == filter
      ensures |cards| == |Filter(projects, filter)|
      ensures forall i :: 0 <= i < |cards| ==> cards[i] == CreateCard(Filter(projects, filter)[i])
    {
      currentFilter := filter;
      cards := RenderProjects();
    }

    /**
     * A click on a card's "Read More" / "Read Less" button. The record is
     * looked up by the button's id; when none has it, the handler fails
     * before it writes anything, and `found` is false.
     */
    method ReadMoreClick(view: DescriptionView) returns (found: bool)
      modifies view
      ensures found <==> FindProject(projects, view.projectId).Some?
      ensures found ==> view.State() == Toggle(old(view.State()), FindProject(projects, view.projectId).value)
      ensures !found ==> view.text == old(view.text) && view.buttonText == old(view.buttonText)
    {
      var project := FindProject(projects, view.projectId);
      if project.None? {
        return false;
      }
      found := true;
      var p := project.value;
      if view.buttonText == ReadLessLabel {
        view.text := Truncate(p.description);
        view.buttonText := ReadMoreLabel;
      } else {
        view.text := p.description;
        view.buttonText := ReadLessLabel;
      }
    }
  }

  /** With distinct ids, clicking twice on a rendered card brings back its first text and buttonText. */
  method TwoClicksRestore(ps: seq<Project>, k: nat) returns (before: DescriptionState, after: DescriptionState)
    requires k < |ps|
    requires forall i, j :: 0 <= i < j < |ps| ==> ps[i].id != ps[j].id
    requires NeedsReadMore(ps[k].description)
    ensures before == Collapsed(ps[k]) && after == before
  {
    var m := new ProjectManager(ps);
    var view := new DescriptionView(CreateCard(ps[k]));
    before := view.State();
    var found := m.ReadMoreClick(view);
    assert ps[k].id == view.projectId;
    var p := FindProject(ps, view.projectId);
    assert p == Some(ps[k]);
    assert view.State() == Expanded(ps[k]);
    found := m.ReadMoreClick(view);
    after := view.State();
  }
}
