/**
 `makeNavLinkActive` of index.js: on every scroll, each section whose band
 contains the scroll offset re-marks the navigation links, so the last
 matching section in document order decides which links are active.
 */
module ActiveSection {
  import opened Options
  import Navigation

  /** A `section[id]` element: its id, `offsetTop` and `offsetHeight`. */
  datatype Section = Section(id: string, top: int, height: int)

  /** How far above a section its band starts. */
  const BandLead: int := 200

  /** The section's band holds the scroll offset: top-200 < scrollY <= top-200+height. */
  predicate Matches(sec: Section, scrollY: int) {
    scrollY > sec.top - BandLead && scrollY <= sec.top - BandLead + sec.height
  }

  /** The link hrefs, and which of them carry the `active` class. */
  datatype Links = Links(hrefs: seq<string>, active: seq<bool>) {
    predicate Valid() {
      |hrefs| == |active|
    }
  }

  /** The inner loop for a matching section, over all links: every link
      loses `active`, and the links pointing at the section (`href === "#" + id`)
      regain it. */
  function Highlight(links: Links, id: string): (r: Links)
    requires links.Valid()
    ensures r.Valid() && r.hrefs == links.hrefs
    ensures forall k :: 0 <= k < |r.active| ==> (r.active[k] <==> links.hrefs[k] == "#" + id)
  {
    Links(links.hrefs, Remark(links.hrefs, links.active, id))
  }

  /** One link of the inner loop: `classList.remove('active')` clears the
      previous mark, then `classList.add('active')` sets it again when the
      href names the section, so the new mark depends on the href alone. */
  function RemarkLink(href: string, id: string): bool {
    href == "#" + id
  }

  /** The inner loop over the links in document order. */
  function Remark(hrefs: seq<string>, active: seq<bool>, id: string): (r: seq<bool>)
    requires |hrefs| == |active|
    ensures |r| == |hrefs|
    ensures forall k :: 0 <= k < |r| ==> (r[k] <==> hrefs[k] == "#" + id)
    decreases |hrefs|
  {
    if hrefs == [] then []
    else [RemarkLink(hrefs[0], id)] + Remark(hrefs[1..], active[1..], id)
  }

  /** `makeNavLinkActive`: the sections are visited in document order. */
  function MakeNavLinkActive(sections: seq<Section>, scrollY: int, links: Links): (r: Links)
    requires links.Valid()
    ensures r.Valid() && r.hrefs == links.hrefs
    decreases |sections|
  {
    if sections == [] then links
    else
      var next := if Matches(sections[0], scrollY) then Highlight(links, sections[0].id) else links;
      MakeNavLinkActive(sections[1..], scrollY, next)
  }

  /** Section `k` matches and none after it does. */
  predicate IsLastMatch(sections: seq<Section>, scrollY: int, k: int) {
    && 0 <= k < |sections|
    && Matches(sections[k], scrollY)
    && forall j :: k < j < |sections| ==> !Matches(sections[j], scrollY)
  }

  predicate NoMatch(sections: seq<Section>, scrollY: int) {
    forall j :: 0 <= j < |sections| ==> !Matches(sections[j], scrollY)
  }

  /** With no matching section the links are left as they were. */
  lemma {:induction false} NoMatchUnchanged(sections: seq<Section>, scrollY: int, links: Links)
    requires links.Valid() && NoMatch(sections, scrollY)
    ensures MakeNavLinkActive(sections, scrollY, links) == links
    decreases |sections|
  {
    if sections != [] {
      NoMatchUnchanged(sections[1..], scrollY, links);
    }
  }

  /** Last match wins: the active links are exactly those pointing at the last
      matching section, whatever the earlier matches or the previous marks. */
  lemma {:induction false} LastMatchWins(sections: seq<Section>, scrollY: int, links: Links, k: int)
    requires links.Valid() && IsLastMatch(sections, scrollY, k)
    ensures MakeNavLinkActive(sections, scrollY, links) == Highlight(links, sections[k].id)
    decreases |sections|
  {
    var next := if Matches(sections[0], scrollY) then Highlight(links, sections[0].id) else links;
    if k == 0 {
      NoMatchUnchanged(sections[1..], scrollY, next);
    } else {
      assert IsLastMatch(sections[1..], scrollY, k - 1);
      LastMatchWins(sections[1..], scrollY, next, k - 1);
    }
  }

  /** The index of the last matching section, scanning from the end: the
      reference the scan is compared with. */
  function LastMatch(sections: seq<Section>, scrollY: int): (r: Option<nat>)
    ensures r.None? <==> NoMatch(sections, scrollY)
    ensures r.Some? ==> IsLastMatch(sections, scrollY, r.value)
    decreases |sections|
  {
    if sections == [] then None
    else if Matches(sections[|sections| - 1], scrollY) then Some(|sections| - 1)
    else LastMatch(sections[..|sections| - 1], scrollY)
  }

  /** The whole behaviour of `makeNavLinkActive` in one statement. */
  lemma MakeNavLinkActiveSpec(sections: seq<Section>, scrollY: int, links: Links)
    requires links.Valid()
    ensures MakeNavLinkActive(sections, scrollY, links)
         == match LastMatch(sections, scrollY)
            case None => links
            case Some(k) => Highlight(links, sections[k].id)
  {
    match LastMatch(sections, scrollY)
    case None => NoMatchUnchanged(sections, scrollY, links);
    case Some(k) => LastMatchWins(sections, scrollY, links, k);
  }

  // ---------------------------------------------------------------------
  // Anchor scrolling and the active link
  // ---------------------------------------------------------------------

  /** The scroll offset an anchor click settles on lies in the band of the
      section it targets exactly when that section is at least 110 pixels
      tall: the header offset of 90 against the band lead of 200. */
  lemma AnchorLandsInBand(href: string, targets: map<string, int>, sec: Section)
    requires href != "#" && href != "" && href in targets && targets[href] == sec.top
    ensures Navigation.AnchorClick(href, targets).ScrollTo?
    ensures Matches(sec, Navigation.AnchorClick(href, targets).top) <==> sec.height >= BandLead - Navigation.HeaderOffset
  {
  }

  /** Clicking the link `#id` of a section at least 110 pixels tall, when no
      later section's band holds the offset scrolled to, makes exactly the
      links to that section active once the scroll handler runs. */
  lemma AnchorHighlightsTarget(sections: seq<Section>, k: int, targets: map<string, int>, links: Links)
    requires links.Valid() && 0 <= k < |sections| && sections[k].id != ""
    requires "#" + sections[k].id in targets && targets["#" + sections[k].id] == sections[k].top
    requires sections[k].height >= BandLead - Navigation.HeaderOffset
    requires forall j :: k < j < |sections| ==> !Matches(sections[j], sections[k].top - Navigation.HeaderOffset)
    ensures var click := Navigation.AnchorClick("#" + sections[k].id, targets);
      && click.ScrollTo?
      && var r := MakeNavLinkActive(sections, click.top, links);
      forall i :: 0 <= i < |r.active| ==> (r.active[i] <==> links.hrefs[i] == "#" + sections[k].id)
  {
    var href := "#" + sections[k].id;
    assert href != "#" by {
      assert |href| > 1;
    }
    AnchorLandsInBand(href, targets, sections[k]);
    var y := Navigation.AnchorClick(href, targets).top;
    assert IsLastMatch(sections, y, k);
    LastMatchWins(sections, y, links, k);
  }
}
