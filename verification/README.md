# mdfmt core, modelled in Dafny

mdfmt formats markdown files. It parses a document into a tree with an
external markdown parser, then writes text for the tree's nodes. This project
models the three pieces of mdfmt's own logic and proves their properties:

- **Formatter** (`formatter.dfy`): `format_node`, the text written for one node.
  A paragraph whose raw content decodes as UTF-8 is written with every newline
  replaced by a space, followed by `"\n\n"`. A paragraph that does not decode,
  and every other kind of node, writes nothing.
- **Parser** (`parser.dfy`): `iter_nodes`, the pre-order walk. It calls a
  callback on a node, then walks each child in order. The tree is the datatype
  `Tree<L> = Node(data, children)`. `Visit` is the sequence of nodes the
  callback receives. `IterNodes` threads the callback's effect as a state
  transformer. The walk is proved to visit each node exactly once, in
  document order. A node is named by the child indices that lead to it.
  The tree is a value, so the model covers callbacks that leave the tree's
  links and node data unchanged. For such callbacks Dafny proves that the
  walk ends on every finite tree, because each recursive call is on a strict
  subtree.
- **Configuration** (`config.dfy`): the list delimiter and how it is displayed,
  the default configuration, the conversion from command-line options, and the
  validation of those options.
- `wrappers.dfy` holds the `Option` and `Result` datatypes.

External behaviour enters as parameters. UTF-8 decoding is
`decode: seq<byte> -> Option<string>`. The filesystem's "is a regular file"
test is `isFile: Path -> bool`. Rust's `usize` is a newtype bounded by 2^64.

src/main.rs:11,25-26 uses a `Formatter` type with `new` and `format_md`.
src/formatter.rs does not define them, so only `format_node` is modelled:
only paragraphs are formatted.

## Model

| member | source | states |
|---|---|---|
| `Formatter.FormatNode` | src/formatter.rs:15-28 | A node that is not a paragraph writes nothing. A paragraph whose content does not decode writes nothing and raises no error. A paragraph with decoded text `s` writes exactly `|s| + 2` characters: each character of `s` at its own index, with a newline turned into a space, then `"\n\n"`. |
| `Formatter.StripNewlines` | src/formatter.rs:21 | Replacing `"\n"` by `" "` keeps the length, and each character is a space where the input had a newline and unchanged elsewhere. |
| `Formatter.StripNewlinesIdempotent` | src/formatter.rs:21 | Replacing the newlines of already-stripped text changes nothing. |
| `Formatter.StripNewlinesKeepsNewlineFree` | src/formatter.rs:21 | Text without a newline is left unchanged by the replacement. |
| `Formatter.ParagraphNewlinesOnlyAtEnd` | src/formatter.rs:19-22 | In a formatted paragraph, a character is a newline exactly when it is one of the final two. |
| `Formatter.FormatStrippedParagraph` | src/formatter.rs:19-22 | A paragraph whose decoded text has no newline is written as that text followed by `"\n\n"`. |
| `Parser.Visit` | src/parser.rs:27-35 | The walk from a node visits as many nodes as the subtree holds, visits the node first, and visits a leaf alone. |
| `Parser.IterNodesCallsInVisitOrder` | src/parser.rs:27-35 | For a callback that leaves the tree unchanged, whatever state it changes, walking the tree is the same as calling the callback on each node of `Visit(t)` in turn. |
| `Parser.VisitIsPreorder` | src/parser.rs:31-34 | The walk of a node is `[node]` followed by the concatenation of its children's walks, in child order. |
| `Parser.VisitAllIsFlatten` | src/parser.rs:32-34 | The walk over a node's children is the concatenation of the children's walks. |
| `Parser.ChildSubtreeWalkedBeforeNextSibling` | src/parser.rs:32-34 | The whole subtree of child `i` is walked as one contiguous block. The block starts right after the node and its earlier siblings' subtrees. The next sibling's block starts where it ends. |
| `Parser.EachNodeVisitedOnce` | src/parser.rs:27-35 | Step `j` of the walk is the node at pre-order position `j`. No position occurs twice. Every node of the tree occurs. The number of steps is the number of nodes. |
| `Configuration.Display` | src/config.rs:112-119 | `Dash` is displayed as `"-"` and `Asterisk` as `"*"`, each one character. |
| `Configuration.DisplayInjective` | src/config.rs:114-117 | Two delimiters are displayed alike only when they are the same delimiter. |
| `Configuration.Default` | src/config.rs:81-88 | The default is a line width of 80, an indent width of 4 and `Asterisk`, and it keeps the invariant `indent_width < line_width` documented at src/config.rs:72. |
| `Configuration.FromOpt` | src/config.rs:91-100 | Without a configuration file, the configuration is the default one. It requires that no configuration file is given, because the source panics in that case. |
| `Configuration.Valid` | src/config.rs:32-49 | An input path that is not a regular file yields `InvalidFile` for `"input_file"` with that path, whatever the configuration file is. Otherwise, a given configuration path that is not a file yields `InvalidFile` for `"config_file"` with that path. The result is `Ok` exactly when the input is a file and the configuration path is absent or is a file. |

## Left out

- `Parser.IterNodesCallsInVisitOrder`: the callback is assumed not to change the tree's links or node data, and it sees only the subtree it is given, not the parent or siblings. In the source the callback receives an arena node (src/parser.rs:27-29) whose links and `RefCell` data it could change before the children are walked (src/parser.rs:31-32). For example, attaching a new child to every leaf would make the walk run forever. Such callbacks are not covered.
- `parse` (src/parser.rs:9-21) wraps the external markdown parser, whose behaviour is not part of this model. Trees are taken as given.
- UTF-8 validation (`str::from_utf8`) is the `decode` parameter. Its internals are not modelled.
- `is_file` is the `isFile` parameter. No filesystem is modelled.
- The writer of `format_node` is the returned string. Write errors (the `?` on `write!`, src/formatter.rs:22) are not modelled, so the routine always succeeds.
- `Configuration.Display` returns the displayed text. The formatter sink's error, forwarded by `write!(f, …)?` at src/config.rs:115-116, is not modelled.
- The `RefCell` borrow of node data has no behavioural content and is not modelled.
- Node kinds other than `Paragraph` carry no payload in the model, because `format_node` ignores them.
- Reading a configuration file is unimplemented in the source, which panics there. `FromOpt` therefore requires that no file is given.
- The display text of `OptError` (the path in Rust's debug format) is not modelled.
- Command-line parsing, file reading, printing and the debug output of src/main.rs are I/O glue. src/main.rs also calls `Formatter::new` and `format_md`, which do not exist in src/formatter.rs, so they are not modelled.
