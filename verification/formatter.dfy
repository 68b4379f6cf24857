/**
 * The per-node formatting routine of mdfmt: the text appended to the output
 * writer for one node of the document tree.
 */
module Formatter {
  import opened Wrappers

  /** One byte of a node's raw content. */
  newtype byte = x: int | 0 <= x < 256

  /**
   * The kind of a document node, as the markdown parser reports it. Only
   * `Paragraph` is formatted, so the payloads of the other kinds are not
   * carried.
   */
  datatype NodeValue =
    | Document | BlockQuote | List | Item | DescriptionList | DescriptionItem
    | DescriptionTerm | DescriptionDetails | CodeBlock | HtmlBlock | Paragraph
    | Heading | ThematicBreak | FootnoteDefinition | Table | TableRow | TableCell
    | Text | TaskItem | SoftBreak | LineBreak | Code | HtmlInline | Emph | Strong
    | Strikethrough | Superscript | Link | Image | FootnoteReference

  /** The data of a node: its kind and the raw bytes of its block content. */
  datatype Ast = Ast(value: NodeValue, content: seq<byte>)

  /** `s` with every newline replaced by a space. */
  function StripNewlines(s: string): (r: string)
    ensures |r| == |s|
    ensures forall i :: 0 <= i < |s| ==> r[i] == (if s[i] == '\n' then ' ' else s[i])
    decreases |s|
  {
    if s == [] then []
    else [if s[0] == '\n' then ' ' else s[0]] + StripNewlines(s[1..])
  }

  /** Stripping already-stripped text changes nothing. */
  lemma StripNewlinesIdempotent(s: string)
    ensures StripNewlines(StripNewlines(s)) == StripNewlines(s)
  {
  }

  /** Text without a newline is left as it is. */
  lemma StripNewlinesKeepsNewlineFree(s: string)
    requires '\n' !in s
    ensures StripNewlines(s) == s
  {
  }

  /**
   * The text appended to the writer for a node. A paragraph whose content
   * decodes (`decode` stands for UTF-8 decoding) is written with every newline
   * turned into a space and followed by a blank line; a paragraph that does
   * not decode, and every other kind of node, writes nothing.
   */
  function FormatNode(node: Ast, decode: seq<byte> -> Option<string>): (r: string)
    ensures node.value != Paragraph ==> r == ""
    ensures node.value == Paragraph && decode(node.content).None? ==> r == ""
    ensures node.value == Paragraph && decode(node.content).Some? ==>
              var s := decode(node.content).value;
              && |r| == |s| + 2
              && r[|s|..] == "\n\n"
              && forall i :: 0 <= i < |s| ==> r[i] == (if s[i] == '\n' then ' ' else s[i])
  {
    match node.value
    case Paragraph =>
      (match decode(node.content)
       case Some(s) => StripNewlines(s) + "\n\n"
       case None => "")
    case _ => ""
  }

  /** In a formatted paragraph the only newlines are the two that end it. */
  lemma ParagraphNewlinesOnlyAtEnd(node: Ast, decode: seq<byte> -> Option<string>)
    requires node.value == Paragraph && decode(node.content).Some?
    ensures var r := FormatNode(node, decode);
            forall i :: 0 <= i < |r| ==> (r[i] == '\n' <==> i >= |r| - 2)
  {
  }

  /** Formatting a paragraph whose decoded text is already stripped reproduces that text. */
  lemma FormatStrippedParagraph(node: Ast, decode: seq<byte> -> Option<string>)
    requires node.value == Paragraph && decode(node.content).Some?
    requires '\n' !in decode(node.content).value
    ensures FormatNode(node, decode) == decode(node.content).value + "\n\n"
  {
  }
}
