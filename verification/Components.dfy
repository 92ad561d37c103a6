/**
 * The results for authored markup: from the text of an element through the scanner
 * to what the two lowerings show.
 */
module Components {
  import opened Wrappers
  import opened Markup
  import opened Lowering
  import opened Weaving
  import opened Html
  import opened Trees
  import opened Painting
  import opened Agreement
  import opened Divergence
  import opened Repainting
  import opened Scanned

  /** The bytes of the native lowering, for the element scanned at i. */
  function RenderedBytes(e: Elem, props: Props): Option<string> {
    ElemAscends(e, [], 0);
    RunWrites(Merge(ElemHtml(e), ElemOps(e, [], 0), 0), props)
  }

  /** The browser lowering: the template cloned and painted. */
  function PaintedTree(e: Elem, props: Props): Option<Dom> {
    var template := Parse(ElemHtml(e));
    if template.None? then None else RunSteps(template.value, PaintSteps(ElemOps(e, [], 0), ""), props)
  }

  /**
   * For any element the scanner accepts, with HTML tag names, no raw markup and
   * props of the types it scanned: what the browser shows for the rendered bytes
   * is what it paints, if and only if every attribute and text site agrees; with
   * distinct attribute names, if and only if every run is clean.
   */
  lemma MarkupAgrees(m: string, i: nat, props: Props)
    requires i < |m| && ReadElem(m, i).Some?
    requires var e := ReadElem(m, i).value.0; Lettered(e) && Each(e, Unraw()) && Each(e, TypedIn(props))
    ensures var e := ReadElem(m, i).value.0;
      RenderedBytes(e, props).Some? && PaintedTree(e, props).Some? && Parse(RenderedBytes(e, props).value).Some?
      && (Parse(RenderedBytes(e, props).value) == PaintedTree(e, props) <==> Agrees(e, props))
      && (Distinct(e) ==> (Agrees(e, props) <==> Each(e, CleanIn(props))))
  {
    hide ReadElem; hide Parse; hide ElemHtml; hide ElemOps; hide Each; hide ElemOk; hide Lettered; hide Merge;
    hide RunWrites;
    hide RunSteps; hide PaintSteps; hide Agrees; hide Distinct;
    var e := ReadElem(m, i).value.0;
    ElemScanned(m, i);
    LoweringsAgreeIff(e, props);
    if Distinct(e) {
      DistinctAgrees(e, props);
    }
  }

  /**
   * Repainting one prop of authored markup is painting with the new value, exactly
   * when no site mixes it with another prop and every attribute it assigns settles;
   * with no two dynamic attributes of one name, exactly when no site mixes it.
   */
  lemma MarkupRepaints(m: string, i: nat, props: Props, prop: string, v: Value)
    requires i < |m| && ReadElem(m, i).Some? && prop != ""
    requires var e := ReadElem(m, i).value.0;
      Lettered(e) && Each(e, Unraw()) && Each(e, Able("", props))
    ensures var e := ReadElem(m, i).value.0;
      PaintedTree(e, props).Some?
      && var repainted := RunSteps(PaintedTree(e, props).value, PaintSteps(ElemOps(e, [], 0), prop), map[prop := v]);
      (repainted == PaintedTree(e, props[prop := v]) <==> Each(e, Alone(prop)) && AllSettled(e, props[prop := v], prop))
      && (Apart(e) ==> AllSettled(e, props[prop := v], prop))
  {
    hide ReadElem; hide Parse; hide ElemHtml; hide ElemOps; hide Each; hide ElemOk; hide Lettered;
    hide RunSteps; hide PaintSteps; hide Able; hide Alone; hide AllSettled; hide Apart;
    var e := ReadElem(m, i).value.0;
    ElemScanned(m, i);
    TemplateParses(e);
    RepaintIff(e, props, prop, v);
    if Apart(e) {
      ApartIsSettled(e, props[prop := v], prop);
    }
  }
}
