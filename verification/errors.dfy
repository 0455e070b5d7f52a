/** The errors the converter raises, one constructor per distinct `ValueError`
    message in src/htmlnode.py. */
module Errors {

  datatype Error =
    /** `LeafNode` built without a value. */
    | LeafWithoutValue
    /** `ParentNode` built without a tag. */
    | ParentWithoutTag
    /** `ParentNode` built without a children list. */
    | ParentWithoutChildren
    /** A LINK or IMAGE text node reached the renderer without a url. */
    | MissingUrl
    /** A delimiter pass found an odd number of delimiters in `text`. */
    | UnmatchedDelimiter(delimiter: string, text: string)
    /** `str.split` was asked to split on the empty string. */
    | EmptySeparator
    /** Title extraction was given the empty document. */
    | EmptyMarkdown
    /** Title extraction found no line starting with `# `. */
    | NoTitle
}
