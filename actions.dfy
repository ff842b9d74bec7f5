/** What the interaction core sends to the action dispatcher. */
module Actions {
  import opened Base

  /** A change-set: dotted glyph address to new value (`Unset` clears it). */
  type ChangeSet = map<string, Value>

  /** The canvas mode names of the UI store (`canvasMode`); `UnknownMode`
      stands for `undefined` and any other string. */
  datatype ModeName = MoveMode | SelectPointsMode | ComponentsMode | UnknownMode

  datatype Action =
    | ChangeGlyphNode(changes: ChangeSet, glyphName: string)         // '/change-glyph-node-manually'
    | ChangeComponent(glyphName: string, componentId: string, name: string)  // '/change-component'
    | ChangeComponentClass(componentClass: string, name: string)    // '/change-component-class'
    | StoreCanvasMode(canvasMode: Option<ModeName>)                   // '/store-value'
}
