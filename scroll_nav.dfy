/**
 * In-page navigation: the scroll position a "#id" link asks for, and the
 * scroll-spy that decides which navbar link is highlighted.
 */
module ScrollNav {
  import opened Wrappers
  import opened JsText

  /** An element of the page as the navigation code sees it: its id and its offsetTop. */
  datatype Element = Element(id: string, offsetTop: int)

  /** Pixels the spy looks below the top of the viewport. */
  const Buffer: int := 60

  /** Pixels a jump to the donate and about-us sections stops short of the section. */
  const HeaderAllowance: int := 70

  /** document.getElementById: the first element in document order with that id; none for "". */
  function GetElementById(doc: seq<Element>, id: string): (r: Option<Element>)
    ensures id == "" ==> r == None
    ensures r.None? ==> forall k :: 0 <= k < |doc| ==> id == "" || doc[k].id != id
    ensures r.Some? ==> id != "" && exists k :: 0 <= k < |doc| && doc[k] == r.value && r.value.id == id &&
                                      forall j :: 0 <= j < k ==> doc[j].id != id
  {
    if id == "" || doc == [] then None
    else if doc[0].id == id then Some(doc[0])
    else
      var r := GetElementById(doc[1..], id);
      assert forall k :: 0 < k < |doc| ==> doc[k] == doc[1..][k - 1];
      r
  }

  /** The ids whose jump stops HeaderAllowance pixels above the section. */
  predicate Adjusted(id: string) {
    id == "donate" || id == "about-us"
  }

  /**
   * The top a click on the in-page link `href` scrolls to: the target's
   * offsetTop, less HeaderAllowance for the adjusted ids; no scroll when the
   * target is not on the page.
   */
  function ScrollTarget(href: string, doc: seq<Element>): (top: Option<int>)
    ensures top.None? <==> GetElementById(doc, DropFirst(href)).None?
    ensures top.Some? ==> top.value + (if Adjusted(DropFirst(href)) then HeaderAllowance else 0)
                          == GetElementById(doc, DropFirst(href)).value.offsetTop
  {
    var id := DropFirst(href);
    match GetElementById(doc, id)
    case None => None
    case Some(section) =>
      Some(if Adjusted(id) then section.offsetTop - HeaderAllowance else section.offsetTop)
  }

  /** The spy counts a section as reached once its top is within Buffer pixels below scrollY. */
  predicate Reached(scrollY: real, section: Element) {
    !(scrollY + Buffer as real < section.offsetTop as real)
  }

  /**
   * The section the spy settles on, scanning down from section i: the first
   * reached one, or section 0 when none of them is.
   */
  function SpyFrom(scrollY: real, sections: seq<Element>, i: nat): (r: nat)
    requires i < |sections|
    ensures r <= i
    ensures r == 0 || Reached(scrollY, sections[r])
    ensures forall j :: r < j <= i ==> !Reached(scrollY, sections[j])
  {
    if i == 0 then 0
    else if !Reached(scrollY, sections[i]) then SpyFrom(scrollY, sections, i - 1)
    else i
  }

  /** The index of the section activateLink picks: the last reached section, or the first one. */
  function SpyIndex(scrollY: real, sections: seq<Element>): (r: nat)
    requires |sections| >= 1
    ensures r < |sections|
    ensures r == 0 || Reached(scrollY, sections[r])
    ensures forall j :: r < j < |sections| ==> !Reached(scrollY, sections[j])
  {
    SpyFrom(scrollY, sections, |sections| - 1)
  }

  /** The two properties of SpyIndex single it out: any index having them is SpyIndex. */
  lemma {:induction false} SpyIndexUnique(scrollY: real, sections: seq<Element>, r: nat)
    requires r < |sections|
    requires r == 0 || Reached(scrollY, sections[r])
    requires forall j :: r < j < |sections| ==> !Reached(scrollY, sections[j])
    ensures SpyIndex(scrollY, sections) == r
  {
  }

  /**
   * The scan of activateLink: start past the last section and step down while
   * the section is not reached, stopping at section 0 whatever its top.
   */
  method FindCurrentSection(scrollY: real, sections: seq<Element>) returns (index: nat)
    requires |sections| >= 1
    ensures index == SpyIndex(scrollY, sections)
  {
    index := |sections| - 1;
    while index != 0 && scrollY + Buffer as real < sections[index].offsetTop as real
      invariant index < |sections|
      invariant SpyFrom(scrollY, sections, index) == SpyIndex(scrollY, sections)
      decreases index
    {
      index := index - 1;
    }
  }

  /** Whether link k ends up highlighted when the current section has the given id. */
  predicate LinkSelected(hrefs: seq<string>, k: nat, id: string)
    requires k < |hrefs|
  {
    DropFirst(hrefs[k]) == id || (k == 0 && (id == "cta" || id == "intro"))
  }

  /** The navbar links, each with its "option-selected" class. */
  class Navbar {
    const hrefs: seq<string>
    var selected: seq<bool>

    predicate Valid()
      reads this
    {
      |selected| == |hrefs|
    }

    constructor(hrefs: seq<string>, selected: seq<bool>)
      requires |selected| == |hrefs|
      ensures Valid()
      ensures this.hrefs == hrefs && this.selected == selected
    {
      this.hrefs := hrefs;
      this.selected := selected;
    }

    /**
     * activateLink: with no sections the scan reads past the start and throws
     * before touching a link; otherwise every link loses the highlight and the
     * links to the current section (and link 0 for cta and intro) gain it.
     */
    method ActivateLink(scrollY: real, sections: seq<Element>) returns (thrown: bool)
      requires Valid()
      modifies this
      ensures Valid()
      ensures thrown <==> sections == []
      ensures thrown ==> selected == old(selected)
      ensures !thrown ==> forall k :: 0 <= k < |hrefs| ==>
                (selected[k] <==> LinkSelected(hrefs, k, sections[SpyIndex(scrollY, sections)].id))
    {
      if sections == [] {
        return true;
      }
      thrown := false;
      var index := FindCurrentSection(scrollY, sections);
      var i := 0;
      while i < |selected|
        invariant 0 <= i <= |selected| == |hrefs|
        invariant forall k :: 0 <= k < i ==> !selected[k]
      {
        selected := selected[i := false];
        i := i + 1;
      }
      var id := sections[index].id;
      i := 0;
      while i < |hrefs|
        invariant 0 <= i <= |hrefs| == |selected|
        invariant forall k :: 0 <= k < i ==> (selected[k] <==> LinkSelected(hrefs, k, id))
        invariant forall k :: i <= k < |hrefs| ==> !selected[k]
      {
        if id == "cta" || id == "intro" {
          selected := selected[0 := true];
        }
        if DropFirst(hrefs[i]) == id {
          selected := selected[i := true];
        }
        i := i + 1;
      }
    }
  }

  /** With distinct link targets, exactly the link to the current section is highlighted. */
  lemma {:induction false} OnlyItsLinkSelected(hrefs: seq<string>, id: string, m: nat)
    requires m < |hrefs| && DropFirst(hrefs[m]) == id
    requires forall k :: 0 <= k < |hrefs| && k != m ==> DropFirst(hrefs[k]) != DropFirst(hrefs[m])
    requires id != "cta" && id != "intro"
    ensures forall k :: 0 <= k < |hrefs| ==> (LinkSelected(hrefs, k, id) <==> k == m)
  {
  }

  /** In the cta and intro sections, which have no link of their own, only the first link is highlighted. */
  lemma {:induction false} FirstLinkForCtaAndIntro(hrefs: seq<string>, id: string)
    requires |hrefs| >= 1 && (id == "cta" || id == "intro")
    requires forall k :: 0 <= k < |hrefs| ==> DropFirst(hrefs[k]) != id
    ensures forall k :: 0 <= k < |hrefs| ==> (LinkSelected(hrefs, k, id) <==> k == 0)
  {
  }

  /** Section tops never decrease in document order. */
  predicate Ascending(sections: seq<Element>) {
    forall i, j :: 0 <= i < j < |sections| ==> sections[i].offsetTop <= sections[j].offsetTop
  }

  /**
   * A jump to a section whose top is not adjusted leaves the spy on that
   * section, provided the next section starts more than Buffer pixels lower.
   */
  lemma {:induction false} JumpHighlightsTarget(href: string, doc: seq<Element>, sections: seq<Element>, i: nat)
    requires Ascending(sections) && i < |sections|
    requires GetElementById(doc, DropFirst(href)) == Some(sections[i])
    requires !Adjusted(DropFirst(href))
    requires i + 1 < |sections| ==> sections[i + 1].offsetTop > sections[i].offsetTop + Buffer
    ensures ScrollTarget(href, doc) == Some(sections[i].offsetTop)
    ensures SpyIndex(sections[i].offsetTop as real, sections) == i
  {
    var y := sections[i].offsetTop as real;
    forall j | i < j < |sections| ensures !Reached(y, sections[j]) {
      assert sections[i + 1].offsetTop <= sections[j].offsetTop;
    }
    SpyIndexUnique(y, sections, i);
  }

  /**
   * A jump to donate or about-us stops HeaderAllowance pixels above the
   * section, which is more than Buffer, so the spy stays on the section
   * before it whenever that one starts at least 10 pixels higher.
   */
  lemma {:induction false} JumpToAdjustedHighlightsPrevious(href: string, doc: seq<Element>, sections: seq<Element>, i: nat)
    requires Ascending(sections) && 0 < i < |sections|
    requires GetElementById(doc, DropFirst(href)) == Some(sections[i])
    requires Adjusted(DropFirst(href))
    requires sections[i - 1].offsetTop + (HeaderAllowance - Buffer) <= sections[i].offsetTop
    ensures ScrollTarget(href, doc) == Some(sections[i].offsetTop - HeaderAllowance)
    ensures SpyIndex((sections[i].offsetTop - HeaderAllowance) as real, sections) == i - 1
  {
    var top := sections[i].offsetTop - HeaderAllowance;
    assert ScrollTarget(href, doc) == Some(top);
    var y := top as real;
    assert Reached(y, sections[i - 1]);
    forall j | i - 1 < j < |sections| ensures !Reached(y, sections[j]) {
      assert sections[i].offsetTop <= sections[j].offsetTop;
    }
    SpyIndexUnique(y, sections, i - 1);
  }

  /** Sections at 0, 500 and 1200: scrolled to 560 the spy is on the second; at the top, the first. */
  lemma {:induction false} SpyExamples()
    ensures SpyIndex(560.0, [Element("intro", 0), Element("about-us", 500), Element("donate", 1200)]) == 1
    ensures SpyIndex(0.0, [Element("intro", 100), Element("about-us", 500)]) == 0
  {
    var s := [Element("intro", 0), Element("about-us", 500), Element("donate", 1200)];
    SpyIndexUnique(560.0, s, 1);
    var t := [Element("intro", 100), Element("about-us", 500)];
    SpyIndexUnique(0.0, t, 0);
  }
}
