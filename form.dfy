/** The page's text inputs that both the analyzer and the PDF extractor write. */
module Form {

  /** A text field of the page (`promptField`, `reportField`): its current value. */
  class TextField {
    var value: string

    constructor (initial: string)
      ensures value == initial
    {
      value := initial;
    }
  }
}
