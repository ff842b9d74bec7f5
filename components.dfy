/** Components mode (glyph-canvas lines 385-435): choosing a component or a
    component class from the hot menu, and which component is hovered. */
module Components {
  import opened Base
  import opened Items
  import opened Actions
  import opened State

  predicate IsChoice(t: ItemType) { t == ComponentMenuItem }
  predicate IsClassChoice(t: ItemType) { t == ComponentMenuItemClass }
  predicate IsMenuCentre(t: ItemType) { t == ComponentMenuItemCenter }
  predicate IsComponent(t: ItemType) { t == ComponentChoice || t == ComponentNoneChoice }

  /** What a release over the menu dispatches (lines 392-419): the first hot
      component choice changes the component, the first hot class choice
      changes the component class, in that order. */
  function MenuActions(hot: seq<Item>, release: bool, glyphName: string): (r: seq<Action>)
    ensures !release ==> r == []
    ensures var choice := Filter(hot, IsChoice);
      var choiceClass := Filter(hot, IsClassChoice);
      && |r| == (if release && |choice| > 0 then 1 else 0) + (if release && |choiceClass| > 0 then 1 else 0)
      && (release && |choice| > 0 ==>
            r[0] == ChangeComponent(glyphName, choice[0].data.componentId, choice[0].data.baseId))
      && (release && |choiceClass| > 0 ==>
            r[|r| - 1] == ChangeComponentClass(choiceClass[0].data.componentClass, choiceClass[0].data.baseId))
  {
    var choice := Filter(hot, IsChoice);
    var choiceClass := Filter(hot, IsClassChoice);
    (if release && |choice| > 0
     then [ChangeComponent(glyphName, choice[0].data.componentId, choice[0].data.baseId)] else [])
    + (if release && |choiceClass| > 0
       then [ChangeComponentClass(choiceClass[0].data.componentClass, choiceClass[0].data.baseId)] else [])
  }

  /** The hover rule (lines 423-435). The first test is `===`, so a ZOOMING
      bit left from the previous frame keeps a component from being hovered. */
  function Hover(m: Model, components: seq<Item>, menu: seq<Item>): Model
  {
    if (Is(m.app, Default) || Is(m.app, ComponentHovered)) && |components| > 0 then
      m.(app := Set(ComponentHovered), hovered := Some(components[0]))
    else if |menu| > 0 then
      m.(app := Set(ComponentMenuHovered))
    else
      m.(app := Set(Default), hovered := None)
  }

  /** One frame of components mode. A dispatched choice empties the hot
      lists, so the hover rule then sees nothing. */
  function ComponentsStep(st: Stage, hot: seq<Item>, release: bool, glyphName: string): (r: Stage)
    ensures r.out == st.out + MenuActions(hot, release, glyphName)
    ensures r.mode == st.mode
    ensures r.m == st.m.(app := r.m.app, hovered := r.m.hovered)
    ensures r.m.app == Set(ComponentHovered) || r.m.app == Set(ComponentMenuHovered) || r.m.app == Set(Default)
  {
    var acts := MenuActions(hot, release, glyphName);
    var cleared := |acts| > 0;
    var components := if cleared then [] else Filter(hot, IsComponent);
    var menu := if cleared then [] else Filter(hot, IsMenuCentre);
    st.(m := Hover(st.m, components, menu), out := st.out + acts)
  }

  /** A release over the menu with a component choice or a class choice
      hot dispatches exactly the menu actions, after what the frame had
      already dispatched, and leaves nothing hovered. The component change
      comes from the first hot choice, wherever it sits among the hot items. */
  lemma MenuReleaseDispatches(st: Stage, hot: seq<Item>, glyphName: string)
    requires Filter(hot, IsChoice) != [] || Filter(hot, IsClassChoice) != []
    ensures var r := ComponentsStep(st, hot, true, glyphName);
      var acts := MenuActions(hot, true, glyphName);
      && r.out == st.out + acts
      && |acts| > 0
      && (Filter(hot, IsChoice) != [] ==>
            var c := Filter(hot, IsChoice)[0];
            r.out[|st.out|] == ChangeComponent(glyphName, c.data.componentId, c.data.baseId))
      && r.m.app == Set(Default) && r.m.hovered == None
  {
  }

  /** Every outcome of a components frame: a hovered component is the first
      hot one and needs a DEFAULT or COMPONENT_HOVERED state with no ZOOMING
      bit; the menu keeps the previous hover; otherwise the hover is cleared. */
  lemma ComponentsOutcome(st: Stage, hot: seq<Item>, release: bool, glyphName: string)
    requires !release || (Filter(hot, IsChoice) == [] && Filter(hot, IsClassChoice) == [])
    ensures var r := ComponentsStep(st, hot, release, glyphName);
      var components := Filter(hot, IsComponent);
      var menu := Filter(hot, IsMenuCentre);
      && r.out == st.out
      && (r.m.app == Set(ComponentHovered) <==>
            (Is(st.m.app, Default) || Is(st.m.app, ComponentHovered)) && |components| > 0)
      && (r.m.app == Set(ComponentHovered) ==>
            r.m.hovered == Some(components[0]) && components[0] in hot && IsComponent(components[0].kind))
      && (r.m.app == Set(ComponentMenuHovered) ==> r.m.hovered == st.m.hovered && |menu| > 0)
      && (r.m.app != Set(ComponentHovered) && |menu| > 0 ==> r.m.app == Set(ComponentMenuHovered))
      && (r.m.app != Set(ComponentHovered) && |menu| == 0 ==> r.m.app == Set(Default))
      && (r.m.app == Set(Default) ==> r.m.hovered == None)
      && (r.m.app == Set(ComponentHovered) || r.m.app == Set(ComponentMenuHovered) || r.m.app == Set(Default))
      && r.m == st.m.(app := r.m.app, hovered := r.m.hovered)
  {
  }

  /** The quirk of line 423: a hovered component with a ZOOMING bit from the
      previous frame is dropped when the menu is not hot, though it is still
      under the pointer. */
  lemma LingeringZoomDropsHover(st: Stage, hot: seq<Item>, glyphName: string)
    requires st.m.app == AppState(ComponentHovered, true)
    requires Filter(hot, IsMenuCentre) == []
    ensures var r := ComponentsStep(st, hot, false, glyphName);
      r.m.app == Set(Default) && r.m.hovered == None
  {
  }
}
