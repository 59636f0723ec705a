/** The records the content service returns (`ContentDto`). */
module Contents {

  /**
   * One overlay instruction: the CSS selector of the element to change,
   * the HTML fragment to put in, and the name of the action to take.
   */
  datatype Rule = Rule(selector: string, content: string, action: string)
}
