/** The document tree the XML parser hands over, and the errors the dictionary loader reports. */
module Dom {

  /** One child of an element: a text node, an element with its local name and ordered children,
      or a comment / processing instruction, which no operation of the loader looks into. */
  datatype Node = Text(text: string) | Elem(name: string, children: seq<Node>) | Other

  /** The failures of the loader. The first five are the loader's own error results; the last
      three stand for the `unwrap()` calls of the article formatter, which abort the process
      in the source and are explicit results here. */
  datatype Error =
    | InvalidNode                     // nodeval: the node holds no text
    | UnexpectedAbbreviationsChild    // a child of <abbreviations> that is not <abr_def> or text
    | UnexpectedAbbreviationLength    // an <abr_def> without exactly two children
    | UnexpectedAbbreviationContent   // an <abr_def> whose children are not <k>,<v> or <v>,<k>
    | MalformedXml                    // the XML parser rejected the text
    | MissingChild                    // first().unwrap() on an element without children
    | NotText                         // text().unwrap() on a first child that is not text
    | UndefinedAbbreviation(key: string)  // abbreviations.get(key).unwrap() on a missing key

  datatype Option<T> = None | Some(value: T)

  datatype Result<T> = Ok(value: T) | Err(error: Error)

  /** The result of an operation that only changes state. */
  datatype Outcome = Pass | Fail(error: Error)
}
