/** The few properties of document elements that the scripts read and write. */
module Dom {

  /** A document node: `style.display`, `style.overflow`, `style.height`,
      `style.width`, `className`, `disabled` and `value`. Text nodes have no
      `style` object, which `hasStyle` records. */
  class Node {
    const hasStyle: bool
    var display: string
    var overflow: string
    var height: string
    var width: string
    var className: string
    var disabled: bool
    var value: string

    constructor (hasStyle: bool, display: string, className: string)
      ensures this.hasStyle == hasStyle && this.display == display && this.className == className
      ensures overflow == "" && height == "" && width == "" && !disabled && value == ""
    {
      this.hasStyle := hasStyle;
      this.display := display;
      this.className := className;
      overflow := "";
      height := "";
      width := "";
      disabled := false;
      value := "";
    }
  }
}
