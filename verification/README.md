# Proofs about the hard parts of the device access program

This project models seven components of the repository in Dafny and proves what each of them is
for. `dafny verify dfyconfig.toml` checks all of it.

- **TinyXML** (`Xml*.dfy`). Text is a sequence of bytes, and a `const char*` is the text that is left
  up to the NUL, the zero pointer, or a pointer that has passed the NUL (`XmlText.Ptr`). A parameter
  `u` says whether the encoding is UTF-8; the source treats all others alike. The document parser
  starts with any encoding and switches it as the source does (`XmlParse.After`, `XmlParse.AtStart`).
  `XmlEntity` and `XmlEncode` cover character references and escaping, `XmlInverse` says what of an
  escaped text comes back, `XmlTree` is the printer, `XmlParse` the parser as functions, `XmlMarks` its
  calls of `Stamp`, and `XmlParser` the parser as the loops of the source with these calls, proved equal
  to the functions. `XmlRoundTrip` proves that printing and parsing are inverse to each other, `XmlErrors`
  is about malformed input, `XmlWords` about white space and classes of bytes, and `XmlLayout` about the
  lines of a printed document. `XmlPosition` covers line ends and row and column tracking, and `XmlPlaces`
  says where it is called on printed documents. `XmlDom` and `XmlAttributes` are the
  linked lists of nodes and attributes.
- **Caches** (`Lru*.dfy`, `Expire*.dfy`). `LruModel` and `ExpireModel` say what the caches are and
  prove what holds over every run; `LruCache` and `ExpireCache` are `AbstractCache` over its
  strategies, each operation proved to do what the operation of the model does, and any sequence of
  operations what the run of the model does. The events by which cache and strategy talk have the
  strategy's callback as their only delegate. The clock is an object that may be later at every
  reading and never earlier.
- **Linear hashing** (`LinearHash.dfy`): `LinearHashTable` and `HashMap`, refining a map.
- **Events** (`Events.dfy`, `Delegates.dfy`): `AbstractEvent` over `DefaultStrategy` and `Delegate`.
  `Events` is a state machine whose steps are the stretches of code between lock operations, taken by
  any number of threads in any order; `Delegates` is the delegate list itself.
- **FIFO buffer** (`Fifo.dfy`): `BasicFIFOBuffer` over `Buffer`.
- **HMAC and archives** (`Hmac.dfy`, `Archive.dfy`): `HMACEngine` over any digest engine, and the
  numbering of archived log files over a file system that is a map from names to contents.
- **Modbus** (`Modbus.dfy`): request frames, transaction ids and the decoding of replies. The reply is
  a parameter.
- `Options.dfy` and `Sequences.dfy` hold an option type and the position of an element in a sequence.

## Where the code differs from what is said about it

- `EncodeString` copies a hexadecimal reference through, on purpose, and the parser expands it, so a
  text with `&#x` in it is not preserved; of the well-encoded texts these are the only exceptions
  (`XmlInverse.EscapeInverse`). What is copied may hold a bracket or a quote
  (`XmlEncode.HexRefLeaksMarkup`; `XmlEncode.EncodeIsClean` says exactly when it does not).
- In UTF-8 the reader takes as many bytes as the lead byte announces without looking at them. A lead byte
  too close to the end takes the end tag along or carries the reader past the end of the text, and one too
  close in front of an escaped character breaks its escape; any other sequence comes back, well-formed or
  not (`XmlInverse.EscapeInverse`, `XmlInverse.BrokenSequenceFails`).
- In UTF-8 position tracking never ends once it meets a byte 0xEF with less than two bytes behind it. The
  parser comes there when it reports an error near the end (`XmlMarks.AttributeWithoutEnd`;
  `XmlMarks.EndsExactly` says exactly when it ends, `XmlMarks.EndsUnlessLate` that it does whenever none of
  the last two bytes is 0xEF). On printed well-formed documents it ends (`XmlRoundTrip.DocumentEnds`).
- The fields of a declaration are printed as they are and read as attribute values
  (`XmlRoundTrip.FieldValue`), and comments, CDATA sections, unknown tags and element names are printed up
  to their first NUL.
- `GetEntity` computes in 32 bits, so a reference to a larger number yields another character
  (`XmlEntity.NumericReference`). `ConvertUTF32ToUTF8` also encodes numbers from U+110000 on, which
  RFC 3629 excludes (`XmlEntity.Utf8IsRfc3629`).
- An attribute that repeats a name overwrites the first one and makes the parser give up the element without an
  error; at the top level the rest of the document is dropped (`XmlErrors.SilentExactlyOnRepeats`,
  `XmlErrors.RepeatDropsTheRest`). Declarations report no error at all (`XmlErrors.DeclarationIsSilent`), and
  behind a comment or a CDATA section that is not closed the parser goes on beyond the end of the text
  (`XmlErrors.CommentNotClosed`, `XmlErrors.SectionNotClosed`).
- Inside an element, an unknown tag whose text starts with a slash is printed as what the parser takes
  for an end tag (`XmlRoundTrip.EndTagLookalikeStops`).
- An attribute without name and value looks like the sentinel of its list, so copying and printing an
  element stop there (`XmlAttributes.VisibleIsAll`, `XmlDom.CopyIsEqual`, `XmlTree.Visible`).
  `ReplaceChild`, unlike the insertions, accepts a document, which a later copy then leaves out.
- `AccessExpireCache` renews a key before it looks at its age, so a read delivers an entry of any age
  that is still held, unless the two clock readings of that very read are the limit apart
  (`ExpireModel.AccessRevives`, `ExpireModel.StaleIsDelivered`).
- A handle of the event's delegates is an address, which a later delegate may have been given
  (`Delegates.DefaultStrategy.RemoveHandle`, `Delegates.StaleHandle`).
- A removal waits for a running callback of its delegate with the mutex of the event in its hands. If that
  callback calls the event, neither goes on (`Events.RemovalMeetsCallback`).
- `BasicFIFOBuffer::resize` does not move the data. Shrinking below the end of the data
  (`Fifo.FifoBuffer.Resize` says exactly when) leaves a buffer whose room `write` and `advance` compute
  by a difference that wraps around; a write of more than the room is then copied beyond the size
  (`Fifo.ShrinkUnderData`, `Fifo.WriteAfterShrinking`).
- `ArchiveByTimestampStrategy::archive` moves the older archive and not the log when the name with the
  time is taken (`Archive.FileSystem.Archive`).
- The guards of the Modbus read functions admit 65535 registers and 2040 bits, while the message buffer
  holds 125 and 2008 (`Modbus.RegistersFit`, `Modbus.BitsFit`), and up to 1024 bytes are received into its
  260 (`Modbus.Client.ReadRegisters`).
- Writing a register looks at the reply as one to the writing of a coil, so a server that refuses goes
  unnoticed (`Modbus.Client.RefusedWrite`).

## Model

| member | source | states |
|---|---|---|
| XmlRoundTrip.DocumentRoundTrip | dev_accesss/common/tinyxml/tinyxmlparser.cpp:704-1629 | every well-formed document, printed in any layout made of white space, parses without an error to the document that was printed, whatever encoding the parser is given and whatever a declaration in the document switches it to; the printed text holds no NUL |
| XmlRoundTrip.MarkTellsUtf8 | dev_accesss/common/tinyxml/tinyxmlparser.cpp:730-744 | with a byte order mark in front a text is read as the text behind it is in UTF-8, by a parser that was given UTF-8 or no encoding |
| XmlRoundTrip.MarkedDocumentRoundTrip | dev_accesss/common/tinyxml/tinyxmlparser.cpp:704-1629 | so the round trip holds with a mark in front of the document |
| XmlRoundTrip.DocumentEnds | dev_accesss/common/tinyxml/tinyxmlparser.cpp:196-311 | position tracking ends on the way through every such document |
| XmlRoundTrip.ElementRoundTrip | dev_accesss/common/tinyxml/tinyxmlparser.cpp:1049-1247 | an element with its attributes and children, followed by anything, is read back in full and reading stops right behind it |
| XmlRoundTrip.NodesRoundTrip | dev_accesss/common/tinyxml/tinyxmlparser.cpp:1177-1247 | printed children followed by an end tag are read back as the same children, stopping at the end tag |
| XmlRoundTrip.AttributesRoundTrip | dev_accesss/common/tinyxml/tinyxmlparser.cpp:1389-1464 | a printed attribute list is read back with the same names and values in the same order |
| XmlRoundTrip.AttributeRoundTrip | dev_accesss/common/tinyxml/tinyxmlparser.cpp:1389-1464 | an attribute whose name is readable and whose value holds no hexadecimal reference is read back, whichever quote the printer chose, if and only if its value is read whole |
| XmlRoundTrip.DeclarationRoundTrip | dev_accesss/common/tinyxml/tinyxmlparser.cpp:1572-1629 | a declaration each of whose fields can be read back is read back field by field, empty fields included |
| XmlRoundTrip.FieldValue | dev_accesss/common/tinyxml/tinyxmlparser.cpp:1389-1464 | a field of a declaration, which is printed unescaped, is read back if and only if no character of its value is a quote, starts a reference or is broken off |
| XmlRoundTrip.CommentRoundTrip | dev_accesss/common/tinyxml/tinyxmlparser.cpp:1335-1386 | a comment is read back with what follows it untouched exactly if its text contains neither the closing tag nor a NUL |
| XmlRoundTrip.CDataRoundTrip | dev_accesss/common/tinyxml/tinyxmlparser.cpp:1498-1546 | a CDATA section is read back exactly if its text contains neither the closing tag nor a NUL |
| XmlRoundTrip.UnknownRoundTrip | dev_accesss/common/tinyxml/tinyxmlparser.cpp:1274-1305 | an unknown tag is read back exactly if its text holds neither a closing bracket nor a NUL |
| XmlRoundTrip.EndTagLookalikeStops | dev_accesss/common/tinyxml/tinyxmlparser.cpp:1177-1247 | an unknown tag whose text starts with a slash ends the children of an element, whatever follows it |
| XmlParser.PrintAndParse | dev_accesss/common/tinyxml/tinyxml.cpp:1758-1887 | the streaming printer and then the parser with its position tracking, both as loops, come to an end and give back a well-formed document without an error, for every encoding |
| XmlParser.Parse | dev_accesss/common/tinyxml/tinyxmlparser.cpp:704-796 | the loop of the document parser ends exactly if none of its calls of Stamp fails to, and then computes the document and the error of the specification, in every encoding, with the switch by a byte order mark or by the first declaration |
| XmlParse.EncodingIsSettled | dev_accesss/common/tinyxml/tinyxmlparser.cpp:704-796 | every top-level node is parsed in the encoding given or told by a byte order mark, or else in that of the first declaration among the nodes before it |
| XmlParse.SettledStays | dev_accesss/common/tinyxml/tinyxmlparser.cpp:767-783 | an encoding that is settled is not changed by any later node |
| XmlMarks.EndsExactly | dev_accesss/common/tinyxml/tinyxmlparser.cpp:196-311 | parsing a text ends if and only if, once the encoding is UTF-8, the way of the cursor to the furthest call of Stamp does not meet a byte 0xEF that is one of the last two of the text |
| XmlMarks.EndsUnlessLate | dev_accesss/common/tinyxml/tinyxmlparser.cpp:196-311 | so parsing ends on every text whose last two bytes are not 0xEF, and in the legacy encoding on every text |
| XmlMarks.AttributeWithoutEnd | dev_accesss/common/tinyxml/tinyxmlparser.cpp:1411-1416 | in UTF-8, also if a byte order mark tells it, parsing does not end on a tag whose attribute is the single byte 0xEF without a value |
| XmlMarks.RoomInNode | dev_accesss/common/tinyxml/tinyxmlparser.cpp:1049-1629 | a node that is read without an error calls Stamp only in front of what follows it, and never at the last byte |
| XmlPlaces.CallsAreAtStarts | dev_accesss/common/tinyxml/tinyxmlparser.cpp:1049-1629 | on the way through a printed well-formed document position tracking is called at the start of every node, every attribute and every printed field of a declaration, in the order of the document and nowhere else, so these are the places they are recorded at |
| XmlLayout.NodesAreLines | dev_accesss/common/tinyxml/tinyxml.cpp:1788-1887 | a printed document is one line for every start tag, end tag and leaf, indented by its depth, whatever the indentation and the line break are; an element without children or with a single text is one line |
| XmlLayout.QuoteOf | dev_accesss/common/tinyxml/tinyxml.cpp:1214-1237 | a value is printed between double quotes, and between single ones exactly if it holds a double quote |
| XmlErrors.ErrorStays | dev_accesss/common/tinyxml/tinyxmlparser.cpp:798-816 | an error reported before a node neither changes what is read after it nor is replaced by a later error |
| XmlErrors.SilentExactlyOnRepeats | dev_accesss/common/tinyxml/tinyxmlparser.cpp:1153-1168 | the attributes and content of an element are given up without an error if and only if an attribute repeats the name of an earlier one |
| XmlErrors.ValueFailsLoudly | dev_accesss/common/tinyxml/tinyxmlparser.cpp:1239-1243 | the content of an element is never given up without an error |
| XmlErrors.RepeatDropsTheRest | dev_accesss/common/tinyxml/tinyxmlparser.cpp:1153-1168 | at the top level everything behind an element with a repeated attribute is dropped without an error |
| XmlErrors.WrongEndTag | dev_accesss/common/tinyxml/tinyxmlparser.cpp:1110-1131 | behind its children, whatever they are, an element with the end tag of another one is an error, and the children are kept |
| XmlErrors.NoEndTag | dev_accesss/common/tinyxml/tinyxmlparser.cpp:1110-1131 | so is a text that ends behind the start tag |
| XmlErrors.BrokenTag | dev_accesss/common/tinyxml/tinyxmlparser.cpp:1086-1108 | a start tag cut off behind its attributes, and an empty tag without its bracket, are the errors of the source |
| XmlErrors.NameAtTheEnd | dev_accesss/common/tinyxml/tinyxmlparser.cpp:1073-1082 | so is a text that ends with the name of an element |
| XmlErrors.AttributeAtTheEnd | dev_accesss/common/tinyxml/tinyxmlparser.cpp:1143-1151 | and a text that ends right behind an attribute |
| XmlErrors.BrokenReference | dev_accesss/common/tinyxml/tinyxmlparser.cpp:455-458 | a numeric reference without a semicolon is an error of the element in the value of an attribute, and of its content in its text |
| XmlErrors.DeclarationIsSilent | dev_accesss/common/tinyxml/tinyxmlparser.cpp:1572-1629 | a declaration reports no error, whatever it looks like |
| XmlErrors.DeclarationInAnyCase | dev_accesss/common/tinyxml/tinyxmlparser.cpp:818-865 | a tag is read as a declaration exactly if it starts like one, in any case of the three letters |
| XmlPlaces.DeclarationPlace | dev_accesss/common/tinyxml/tinyxmlparser.cpp:1572-1588 | a declaration has its place at its start, in front of those of its fields |
| XmlErrors.OtherWordSkipped | dev_accesss/common/tinyxml/tinyxmlparser.cpp:1621-1626 | a word in a declaration that is no field is read over |
| XmlPlaces.FieldTaken | dev_accesss/common/tinyxml/tinyxmlparser.cpp:1594-1618 | a field of a declaration has one place, its start, whether it is read to its end or not |
| XmlErrors.NoEquals | dev_accesss/common/tinyxml/tinyxmlparser.cpp:1408-1421 | a name without an equals sign behind it is an error, white space between them aside |
| XmlErrors.NoName | dev_accesss/common/tinyxml/tinyxmlparser.cpp:1405-1413 | so is a missing name |
| XmlErrors.NoValue | dev_accesss/common/tinyxml/tinyxmlparser.cpp:1423-1428 | and a missing value |
| XmlErrors.BareValue | dev_accesss/common/tinyxml/tinyxmlparser.cpp:1445-1463 | a value without quotes is taken as it stands up to white space or the end of the tag, and a quote right behind it is an error |
| XmlErrors.CommentNotClosed | dev_accesss/common/tinyxml/tinyxmlparser.cpp:1374-1385 | a comment takes the rest of the text, and the parser goes on beyond the end, if and only if it is not closed |
| XmlErrors.CommentNotClosedInside | dev_accesss/common/tinyxml/tinyxmlparser.cpp:1177-1247 | inside an element it takes the element along, without an error |
| XmlErrors.SectionNotClosed | dev_accesss/common/tinyxml/tinyxmlparser.cpp:1512-1533 | the same for CDATA sections |
| XmlErrors.UnknownNotClosed | dev_accesss/common/tinyxml/tinyxmlparser.cpp:1288-1304 | an unknown tag that is not closed takes the rest of the text, and the parser stops at the end |
| XmlErrors.NotThatNode | dev_accesss/common/tinyxml/tinyxmlparser.cpp:1274-1524 | the error each kind of node reports where no such node starts |
| XmlErrors.NoDocument | dev_accesss/common/tinyxml/tinyxmlparser.cpp:746-751 | a text without a tag at its start, white space and marks aside, is an empty document, which is an error |
| XmlErrors.TextAfterNodes | dev_accesss/common/tinyxml/tinyxmlparser.cpp:754-765 | behind the nodes of a document a text ends the reading without an error |
| XmlPlaces.WrongEndTagPlace | dev_accesss/common/tinyxml/tinyxmlparser.cpp:1110-1131 | the error of a wrong end tag is recorded at that tag, behind the places of the attributes and children, and only if it is the first error |
| XmlPlaces.BrokenTagPlace | dev_accesss/common/tinyxml/tinyxmlparser.cpp:1086-1104 | that of a start tag cut off is recorded where the white space behind its attributes begins, or behind its slash |
| XmlPlaces.NamePlace | dev_accesss/common/tinyxml/tinyxmlparser.cpp:1073-1082 | that of a name at the end of the text at the name |
| XmlPlaces.NoEqualsPlace | dev_accesss/common/tinyxml/tinyxmlparser.cpp:1405-1421 | that of a missing equals sign where something else stands instead, or at the name if the text ends there |
| XmlPlaces.BadNamePlace | dev_accesss/common/tinyxml/tinyxmlparser.cpp:1405-1413 | that of a missing name where it should start |
| XmlPlaces.BareValuePlace | dev_accesss/common/tinyxml/tinyxmlparser.cpp:1445-1463 | that of a quote behind a bare value at the quote |
| XmlPlaces.BrokenAttributePlace | dev_accesss/common/tinyxml/tinyxmlparser.cpp:1143-1151 | an attribute that is not read to its end makes the element give up at its start, unless it has reported an error itself |
| XmlPlaces.NotThatNodePlace | dev_accesss/common/tinyxml/tinyxmlparser.cpp:1274-1524 | the error of each kind of node where no such node starts is recorded right there, that of a declaration nowhere |
| XmlParse.NamesOfUtf8 | dev_accesss/common/tinyxml/tinyxmlparser.cpp:774-782 | an encoding name means UTF-8 if and only if it is empty or starts, in any case of letters, with one of the two spellings |
| XmlParser.ParseElementNode | dev_accesss/common/tinyxml/tinyxmlparser.cpp:1049-1174 | the element, its attribute loop and its content make the calls of Stamp of the specification and, if they end, compute the node, the remaining text and the error, malformed input included |
| XmlParser.ReadElementValue | dev_accesss/common/tinyxml/tinyxmlparser.cpp:1177-1247 | the loop over text, elements and other nodes up to an end tag makes the calls of Stamp of the specification and, if they end, computes the children |
| XmlParser.ParseAttributeNode | dev_accesss/common/tinyxml/tinyxmlparser.cpp:1389-1464 | names, both quotes and unquoted values are read as specified, with the calls of Stamp at the start and at an error, unless one of them does not end |
| XmlParser.ParseDeclarationNode | dev_accesss/common/tinyxml/tinyxmlparser.cpp:1572-1629 | the loop over the fields of a declaration reads them as specified, unknown tokens being skipped, with the calls of Stamp of its attributes |
| XmlText.ReadNameConcat | dev_accesss/common/tinyxml/tinyxmlparser.cpp:401-434 | a valid name followed by anything that is not a name character is read in full and no further |
| XmlText.DropWhiteSpaceConcat | dev_accesss/common/tinyxml/tinyxmlparser.cpp:314-361 | skipping drops all the white space in front of anything else and nothing more; in UTF-8 also byte order marks are something to skip |
| XmlText.StringEqualLoop | dev_accesss/common/tinyxml/tinyxmlparser.cpp:534-572 | the character loop is true exactly if the text at the pointer starts with the tag, letter case ignored on request |
| XmlWords.WhiteSpaceIs | dev_accesss/common/tinyxml/tinyxml.h:293-296 | white space is that of section 2.3 of XML 1.0 and two more bytes |
| XmlWords.NameCharactersAre | dev_accesss/common/tinyxml/tinyxmlparser.cpp:129-168 | below 127 the characters of names are those of section 2.3 of XML 1.0, except that no name starts with a colon, and from 127 on every byte is one |
| XmlWords.ToLowerIs | dev_accesss/common/tinyxml/tinyxmlparser.cpp:548-556 | ignoring case changes the 26 letters alone |
| XmlWords.MarksAre | dev_accesss/common/tinyxml/tinyxmlparser.cpp:324-347 | what is skipped like white space in UTF-8 are the octets of U+FEFF, U+FFFE and U+FFFF |
| XmlTree.StreamPrint | dev_accesss/common/tinyxml/tinyxml.cpp:1758-1887 | the visitor with its depth, its flag for simple text and its buffer writes the printed form of every document, values that are appended as C strings up to their first NUL |
| XmlTree.Printer.Accept | dev_accesss/common/tinyxml/tinyxml.cpp:846-857 | visiting a node at any depth appends its printed form and leaves depth, format and flag as they were |
| XmlInverse.EscapeInverse | dev_accesss/common/tinyxml/tinyxmlparser.cpp:574-637 | reading the escaped text up to a quote or a tag gives the text and stops at the end tag: for text without a hexadecimal reference if and only if no multi-byte sequence is cut off by the end or by an escaped character; for text without a broken sequence if and only if it holds no such reference |
| XmlInverse.BrokenSequenceFails | dev_accesss/common/tinyxml/tinyxml.h:328-362 | every lead byte alone takes the end tag along or carries the reader past the end, and one of two bytes in front of a bracket leaves the escape of the bracket in the text |
| XmlInverse.CondensedInverse | dev_accesss/common/tinyxml/tinyxmlparser.cpp:574-637 | with white space condensed, a text without a reference that is read whole comes back, whatever white space stands around its escaped form, if and only if every space in it stands between two other characters and in UTF-8 it does not start with a mark |
| XmlInverse.TidyIsCondensed | dev_accesss/common/tinyxml/tinyxmlparser.cpp:574-637 | outside UTF-8 the condition on spaces says that there is none at either end and no two are adjacent |
| XmlInverse.FieldInverse | dev_accesss/common/tinyxml/tinyxmlparser.cpp:574-637 | what stands unescaped between double quotes is read back if and only if no character of it is a quote, starts a reference or is broken off |
| XmlEncode.EncodeHasNoMarkup | dev_accesss/common/tinyxml/tinyxml.cpp:51-132 | escaped text holds no angle bracket, no quote and no control character, for texts without a hexadecimal reference |
| XmlEncode.EncodeIsClean | dev_accesss/common/tinyxml/tinyxml.cpp:51-132 | escaped text holds no angle bracket, no quote and no control character if and only if none is in what the text has between the ampersand of a hexadecimal reference and the semicolon or last character where the copying ends |
| XmlEncode.HexRefLeaksMarkup | dev_accesss/common/tinyxml/tinyxml.cpp:59-81 | a text in which a copied reference lets a bracket through unescaped |
| XmlInverse.GetCharOfEncode | dev_accesss/common/tinyxml/tinyxml.h:328-362 | the escape of every byte that stands for itself, which outside UTF-8 is every byte, is read back as that byte, leaving what follows it |
| XmlEncode.EncodeString | dev_accesss/common/tinyxml/tinyxml.cpp:51-132 | the loop over the text, with its inner loop over a copied reference, computes the escaped text for every input |
| XmlEncode.ReadTextLoop | dev_accesss/common/tinyxml/tinyxmlparser.cpp:574-637 | both loops, keeping or condensing white space, read the text up to the end tag as specified, in UTF-8 and in other encodings |
| XmlWords.CondensedWords | dev_accesss/common/tinyxml/tinyxmlparser.cpp:600-634 | with white space condensed, a text without markup and references is read as its words, split at any white space, with one space between them; in UTF-8, for whole sequences, the marks in front are left out |
| XmlWords.NothingToRead | dev_accesss/common/tinyxml/tinyxmlparser.cpp:600-634 | from white space alone, and from no text, nothing is read |
| XmlEntity.NumericReference | dev_accesss/common/tinyxml/tinyxmlparser.cpp:445-512 | a reference in decimal or hexadecimal digits, with any leading zeros, yields its positional value cut to 32 bits, so the value itself exactly if it is below 2 to the 32 |
| XmlEntity.NumeralReference | dev_accesss/common/tinyxml/tinyxmlparser.cpp:445-512 | a reference to n, written in decimal or with hexadecimal digits of either case, yields n cut to 32 bits |
| XmlEntity.DigitsBehind | dev_accesss/common/tinyxml/tinyxmlparser.cpp:445-512 | whatever stands in front of them, the digits before the semicolon count back to the last character the scan stops at, and any other character directly in front of them makes the reference fail |
| XmlEntity.NoSemicolon | dev_accesss/common/tinyxml/tinyxmlparser.cpp:455-458 | so does a missing semicolon |
| XmlEntity.ReferenceToByte | dev_accesss/common/tinyxml/tinyxmlparser.cpp:506-512 | outside UTF-8 a reference to n is read as the byte that is the low eight bits of n |
| XmlEntity.DigitsAre | dev_accesss/common/tinyxml/tinyxmlparser.cpp:463-497 | the digits and, in either case, the letters have the values of their places in the rows of digits |
| XmlEntity.ReferenceToOctets | dev_accesss/common/tinyxml/tinyxmlparser.cpp:445-531 | in the UTF-8 mode a numeric reference becomes the octets of that value, which are its RFC 3629 encoding exactly for values below U+110000 |
| XmlEntity.Utf8IsRfc3629 | dev_accesss/common/tinyxml/tinyxmlparser.cpp:88-126 | the octets written have the patterns of section 3 of RFC 3629, in shortest form, and decode to the value, if and only if the value is below U+110000 |
| XmlEntity.Utf8BeyondUnicode | dev_accesss/common/tinyxml/tinyxmlparser.cpp:94-103 | from U+110000 on four octets are still written up to 2 to the 21, and decode to the value, and none from there on |
| XmlEntity.Utf8LengthMatchesTable | dev_accesss/common/tinyxml/tinyxmlparser.cpp:66-86 | the table announces, for the lead octet written, the number of octets written, exactly for values below U+140000 |
| XmlEntity.ConvertUTF32ToUTF8 | dev_accesss/common/tinyxml/tinyxmlparser.cpp:88-126 | the falling-through switch that fills the output from behind writes exactly these octets |
| XmlEntity.ScanBackValue | dev_accesss/common/tinyxml/tinyxmlparser.cpp:463-497 | the right-to-left accumulation modulo 2 to the 32 from any position on is the positional value of the digits |
| XmlEntity.GetEntityLoop | dev_accesss/common/tinyxml/tinyxmlparser.cpp:438-531 | the loops over digits and over the table of named references find what the specification finds, unresolved references included |
| XmlPosition.PathIndependent | dev_accesss/common/tinyxml/tinyxmlparser.cpp:196-311 | however many calls there were and wherever they landed, also between the characters of a line break or within a character of several bytes, the cursor is that of one call to the furthest point, and they all end exactly if that one ends |
| XmlPosition.PositionCounts | dev_accesss/common/tinyxml/tinyxmlparser.cpp:196-311 | at every point between characters and line breaks the row counts the line breaks, of one line end or of two different ones, and the column the characters since the last one; a tab goes on to the next tab stop, and in UTF-8 a character counts once and a mark not at all |
| XmlPosition.EndsUnlessSticks | dev_accesss/common/tinyxml/tinyxmlparser.cpp:196-311 | a call ends if and only if on its way, by line breaks and character lengths, it does not meet in UTF-8 a byte 0xEF with less than two bytes behind it |
| XmlPosition.SticksNearTheEnd | dev_accesss/common/tinyxml/tinyxmlparser.cpp:261-282 | it can meet one only in UTF-8, only on its way to one of the last two bytes or the end, and only if one of the last two bytes is 0xEF |
| XmlPosition.StampEnds | dev_accesss/common/tinyxml/tinyxmlparser.cpp:196-311 | every call ends on text that breaks off no sequence |
| XmlPosition.ParsingData.Stamp | dev_accesss/common/tinyxml/tinyxmlparser.cpp:196-311 | the loop moves the cursor as specified, and it is told where it would not end; a tab size below one switches it off |
| XmlPosition.LoadNormalised | dev_accesss/common/tinyxml/tinyxml.cpp:1033-1075 | the chunk-copying loop computes the text up to the first NUL with line ends normalised |
| XmlPosition.NormaliseIsSection211 | dev_accesss/common/tinyxml/tinyxml.cpp:1033-1075 | this is section 2.11 of XML 1.0: pairs first, then single carriage returns, become line feeds |
| XmlPosition.NormaliseHasNoCr | dev_accesss/common/tinyxml/tinyxml.cpp:1033-1075 | no carriage return is left |
| XmlPosition.NormaliseFixes | dev_accesss/common/tinyxml/tinyxml.cpp:1033-1075 | a text is left as it is exactly if it holds no carriage return, and normalising twice is normalising once |
| XmlDom.DomNode.LinkEndChild | dev_accesss/common/tinyxml/tinyxml.cpp:184-208 | the node is appended to the children, all lists of the forest stay linked both ways with right parents, and a document is refused |
| XmlDom.DomNode.InsertBeforeChild | dev_accesss/common/tinyxml/tinyxml.cpp:226-255 | a copy enters the list right before the given child, or nothing changes if that is not a child or the copy would be a document; all lists stay linked |
| XmlDom.DomNode.InsertAfterChild | dev_accesss/common/tinyxml/tinyxml.cpp:258-287 | the same, right behind the given child |
| XmlDom.DomNode.InsertEndChild | dev_accesss/common/tinyxml/tinyxml.cpp:211-223 | a copy is appended, and it says what was copied |
| XmlDom.DomNode.ReplaceChild | dev_accesss/common/tinyxml/tinyxml.cpp:290-315 | a copy takes the place of the child, which leaves with all below it; the rest stays linked |
| XmlDom.DomNode.RemoveChild | dev_accesss/common/tinyxml/tinyxml.cpp:318-338 | the child leaves the list with all below it, its neighbours are linked to each other, and nothing that stays refers to it |
| XmlDom.DomNode.Clear | dev_accesss/common/tinyxml/tinyxml.cpp:167-181 | every child is freed once, in order, and what stays is linked |
| XmlDom.DomNode.Clone | dev_accesss/common/tinyxml/tinyxml.cpp:824-868 | the copy is made of new nodes only, is linked, represents the copied tree, and nothing else is touched |
| XmlDom.CopyIsEqual | dev_accesss/common/tinyxml/tinyxml.cpp:824-868 | a tree is copied in full if and only if no attribute but the first of an element is blank, no document is below another node, and only elements and documents have children |
| XmlAttributes.AttributeSet.Add | dev_accesss/common/tinyxml/tinyxml.cpp:1516-1529 | the attribute is appended and the ring stays linked both ways around the sentinel |
| XmlAttributes.AttributeSet.Remove | dev_accesss/common/tinyxml/tinyxml.cpp:1531-1547 | exactly the given attribute leaves the ring, in place; one that is not in it changes nothing |
| XmlAttributes.AttributeSet.Set | dev_accesss/common/tinyxml/tinyxml.cpp:717-744 | a value is changed in place, or a new attribute is appended |
| XmlAttributes.AttributeSet.CopyTo | dev_accesss/common/tinyxml/tinyxml.cpp:824-838 | copying gives the attributes that First and Next reach, in order |
| XmlAttributes.VisibleIsAll | dev_accesss/common/tinyxml/tinyxml.cpp:1174-1181 | all attributes are reached if and only if none but the first is without name and value |
| LruModel.Inclusion | dev_accesss/3rd/poco_1.9.0/include/Poco/LRUStrategy.h:57-128 | the same operations on a smaller and a larger cache: at every point the smaller one holds part of the larger one with equal values, its recency list is a subsequence, and the larger one has at most the difference of the capacities more |
| LruModel.HitsAreIncluded | dev_accesss/3rd/poco_1.9.0/include/Poco/AbstractCache.h:303-329 | a read that hits in the smaller cache hits in the larger one with the same value |
| LruModel.RunInvariant | dev_accesss/3rd/poco_1.9.0/include/Poco/LRUStrategy.h:57-128 | over every run map and list hold the same keys, each once, and at most the capacity |
| LruModel.OrderIsRecency | dev_accesss/3rd/poco_1.9.0/include/Poco/LRUStrategy.h:57-88 | the list is sorted by the time of the last add, update or successful read |
| LruModel.EvictsLeastRecentlyUsed | dev_accesss/3rd/poco_1.9.0/include/Poco/LRUStrategy.h:104-128 | storing a new key in a full cache removes exactly the key used longest ago |
| LruModel.ValuesAreLastStored | dev_accesss/3rd/poco_1.9.0/include/Poco/AbstractCache.h:207-273 | every value held is the one last added or updated under its key |
| LruModel.StoredIsHeld | dev_accesss/3rd/poco_1.9.0/include/Poco/AbstractCache.h:207-273 | what was added or updated is held with its value, whatever the cache held before, and nothing else is lost for it if the key was there or there was room |
| LruModel.RunsAsMap | dev_accesss/3rd/poco_1.9.0/include/Poco/AbstractCache.h:207-284 | over every run in which a map would not outgrow the capacity the cache holds what the map would |
| LruModel.RemovedIsGone | dev_accesss/3rd/poco_1.9.0/include/Poco/AbstractCache.h:275-301 | a removal takes out its key alone, and clearing everything |
| LruCache.LruCache.Add | dev_accesss/3rd/poco_1.9.0/include/Poco/AbstractCache.h:207-233 | the operation on map, list and index does what the model does, eviction included, and list, index and map keep agreeing |
| LruCache.LruCache.Update | dev_accesss/3rd/poco_1.9.0/include/Poco/AbstractCache.h:235-273 | the same for update, which for the strategy is removal and addition |
| LruCache.LruCache.Get | dev_accesss/3rd/poco_1.9.0/include/Poco/AbstractCache.h:303-329 | the same for get, which returns the stored value or nothing |
| LruCache.LruCache.Remove | dev_accesss/3rd/poco_1.9.0/include/Poco/AbstractCache.h:275-284 | the same for remove |
| LruCache.LruCache.Size | dev_accesss/3rd/poco_1.9.0/include/Poco/AbstractCache.h:146-152 | replacement changes nothing in a valid cache, and map and list have the size returned, at most the capacity |
| LruCache.LruCache.DoReplace | dev_accesss/3rd/poco_1.9.0/include/Poco/AbstractCache.h:338-351 | removing the keys the strategy names one by one leaves exactly the most recent ones within the capacity |
| LruCache.LruCache.PerformAll | dev_accesss/3rd/poco_1.9.0/include/Poco/AbstractCache.h:75-178 | executing any sequence of operations on a new cache leaves it in the state the model reaches by them |
| LruCache.RunBoth | dev_accesss/3rd/poco_1.9.0/include/Poco/AbstractCache.h:75-178 | executing the same operations on a smaller and a larger cache leaves the smaller one with part of the larger one, with equal values and in the same order of use |
| LruCache.LruStrategy.OnGet | dev_accesss/3rd/poco_1.9.0/include/Poco/LRUStrategy.h:78-88 | a hit moves the node to the front and keeps the index pointing at the same node |
| LruCache.LruStrategy.OnReplace | dev_accesss/3rd/poco_1.9.0/include/Poco/LRUStrategy.h:104-128 | the backward walk names exactly the keys beyond the capacity |
| LruCache.LruStrategy.OnUpdate | dev_accesss/3rd/poco_1.9.0/include/Poco/AbstractStrategy.h:43-48 | remove and add leave the key at the front, once |
| LinearHash.LinearHashTable.Insert | dev_accesss/3rd/poco_1.9.0/include/Poco/LinearHashTable.h:351-378 | a new key is stored and an old one is kept with its value; after the split every key is once in the bucket its hash addresses, and the counts of buckets, front and split pointer agree |
| LinearHash.LinearHashTable.Erase | dev_accesss/3rd/poco_1.9.0/include/Poco/LinearHashTable.h:391-396 | exactly the key is removed, and after the merge all of this holds again |
| LinearHash.LinearHashTable.Find | dev_accesss/3rd/poco_1.9.0/include/Poco/LinearHashTable.h:320-342 | an iterator to the entry of the key, or the end if there is none |
| LinearHash.LinearHashTable.Split | dev_accesss/3rd/poco_1.9.0/include/Poco/LinearHashTable.h:441-460 | redistributing one bucket keeps the contents and the addressing, also where the front doubles |
| LinearHash.LinearHashTable.Merge | dev_accesss/3rd/poco_1.9.0/include/Poco/LinearHashTable.h:462-480 | folding the last bucket back keeps the contents and the addressing, also where the front is halved |
| LinearHash.LinearHashTable.Entries | dev_accesss/3rd/poco_1.9.0/include/Poco/LinearHashTable.h:278-318 | a walk from begin to end meets every entry of the table and nothing twice |
| LinearHash.LinearHashTable.Clear | dev_accesss/3rd/poco_1.9.0/include/Poco/LinearHashTable.h:398-403 | the table is empty and valid |
| LinearHash.SplitMoves | dev_accesss/3rd/poco_1.9.0/include/Poco/LinearHashTable.h:433-460 | moving the split pointer moves only hashes of the bucket it points at, and those only to the new bucket |
| LinearHash.FullSplitIsDoubled | dev_accesss/3rd/poco_1.9.0/include/Poco/LinearHashTable.h:433-460 | a table whose buckets were all split is a table with twice the front |
| LinearHash.AddressIsHistoryIndependent | dev_accesss/3rd/poco_1.9.0/include/Poco/LinearHashTable.h:433-439 | the bucket of a hash depends on the number of buckets alone, not on the operations that led to it |
| LinearHash.HashMap.Index | dev_accesss/3rd/poco_1.9.0/include/Poco/HashMap.h:213-219 | operator[] inserts the default value exactly if the key is absent, and refers to the value of the key where it is stored |
| LinearHash.HashMap.Put | dev_accesss/3rd/poco_1.9.0/include/Poco/HashMap.h:213-219 | assigning through this reference makes the value that of the key, and changes no other key |
| LinearHash.HashMap.Lookup | dev_accesss/3rd/poco_1.9.0/include/Poco/HashMap.h:204-211 | the constant operator[] gives the value, or its exception exactly for absent keys |
| LinearHash.RunTable | dev_accesss/3rd/poco_1.9.0/include/Poco/LinearHashTable.h:351-403 | any sequence of insertions, erasures and clearings, with all the splits and merges on the way, leaves what it leaves in a map |
| Events.NoCallAfterRemoval | dev_accesss/3rd/poco_1.9.0/include/Poco/AbstractEvent.h:181-209 | over all interleavings: once a removal has returned, no callback on that registration starts on any thread, not even from a notification under way, and none is still running except on the remover itself |
| Events.NotifyIsExact | dev_accesss/3rd/poco_1.9.0/include/Poco/AbstractEvent.h:224-245 | a notification that ends has called, once each and in order of registration, exactly the delegates it copied except those it found disabled, and none registered after the copy |
| Events.SnapshotIsLive | dev_accesss/3rd/poco_1.9.0/include/Poco/AbstractEvent.h:224-245 | what a notification copies is all that is registered, and all of it is enabled |
| Events.CallbacksExclude | dev_accesss/3rd/poco_1.9.0/include/Poco/Delegate.h:64-90 | a callback of a delegate never runs on two threads at a time |
| Events.RunInvariant | dev_accesss/3rd/poco_1.9.0/include/Poco/AbstractEvent.h:172-306 | every state any interleaving can reach satisfies the protocol invariant |
| Events.StepKeeps | dev_accesss/3rd/poco_1.9.0/include/Poco/DefaultStrategy.h:57-114 | every single step keeps the protocol invariant |
| Events.RemovalLastsOverRun | dev_accesss/3rd/poco_1.9.0/include/Poco/Delegate.h:86-90 | what was removed stays removed and disabled for ever |
| Events.RemovalStarts | dev_accesss/3rd/poco_1.9.0/include/Poco/DefaultStrategy.h:72-83 | a call to remove a target starts to take down the first registered delegate of that target; without one nothing happens |
| Events.RemovalTakesFirst | dev_accesss/3rd/poco_1.9.0/include/Poco/DefaultStrategy.h:72-83 | once that call has returned, whatever other threads did meanwhile, exactly that registration has become removed and the list is the one before without it |
| Events.HandleRemovalTakes | dev_accesss/3rd/poco_1.9.0/include/Poco/DefaultStrategy.h:85-96 | the same for the registration a handle names |
| Events.ClearTakesAll | dev_accesss/3rd/poco_1.9.0/include/Poco/DefaultStrategy.h:107-114 | once clearing has returned, everything that was registered when it started is removed |
| Events.AddedTargetStays | dev_accesss/3rd/poco_1.9.0/include/Poco/DefaultStrategy.h:65-70 | a registration is new, comes last and refers to the given target for ever |
| Events.EnabledIsLastFlag | dev_accesss/3rd/poco_1.9.0/include/Poco/AbstractEvent.h:277-298 | the event is enabled as the last call of enable or disable said |
| Events.DisabledIsSilent | dev_accesss/3rd/poco_1.9.0/include/Poco/AbstractEvent.h:235-238 | a notification of a disabled event calls nobody |
| Events.GoesOn | dev_accesss/3rd/poco_1.9.0/include/Poco/Delegate.h:64-90 | a thread within a call of the event can take one step, and only one, exactly if no other thread runs the callback of the delegate it has come to |
| Events.StartsUnlessOwned | dev_accesss/3rd/poco_1.9.0/include/Poco/AbstractEvent.h:172-306 | an idle thread, or one in a callback, can start any call exactly while nobody removes or clears |
| Events.RemovalMeetsCallback | dev_accesss/3rd/poco_1.9.0/include/Poco/AbstractEvent.h:181-209 | a removal that meets the callback of its delegate on another thread holds the mutex of the event while it waits, so that a call of the event from that callback waits for the removal in its turn |
| Delegates.DefaultStrategy.Remove | dev_accesss/3rd/poco_1.9.0/include/Poco/DefaultStrategy.h:72-83 | the first delegate that equals the argument, and no other, leaves the list and is disabled |
| Delegates.DefaultStrategy.RemoveHandle | dev_accesss/3rd/poco_1.9.0/include/Poco/DefaultStrategy.h:85-96 | the delegate whose address is the handle, and no other, leaves the list and is disabled: the one registered under the handle exactly if it is still registered; without one nothing changes |
| Delegates.StaleHandle | dev_accesss/3rd/poco_1.9.0/include/Poco/DefaultStrategy.h:85-96 | a run in which the handle of a delegate that is gone removes another one, registered later at the same address |
| Delegates.DefaultStrategy.Clear | dev_accesss/3rd/poco_1.9.0/include/Poco/DefaultStrategy.h:107-114 | the list is empty and all its delegates are disabled |
| ExpireModel.RunIsFaithful | dev_accesss/3rd/poco_1.9.0/include/Poco/ExpireStrategy.h:60-120 | over every run under a clock that does not go back, what is held is what was last stored with the time of its last use, and only what has expired may be missing |
| ExpireModel.PurgeIsExact | dev_accesss/3rd/poco_1.9.0/include/Poco/ExpireStrategy.h:109-120 | after a replacement the cache holds a key exactly if its last use is less than the limit ago |
| ExpireModel.ReadIsTimely | dev_accesss/3rd/poco_1.9.0/include/Poco/AbstractCache.h:303-329 | a read of an expiring cache delivers the last value exactly if the last use is less than the limit ago |
| ExpireModel.AccessRevives | dev_accesss/3rd/poco_1.9.0/include/Poco/AccessExpireStrategy.h:52-64 | over every run under a clock that does not go back: the read of an access-expiring cache delivers a value exactly if the key is still held and its own two clock readings are less than the limit apart; the value is the one last stored, and a last use younger than the limit makes sure of it |
| ExpireModel.StaleIsDelivered | dev_accesss/3rd/poco_1.9.0/include/Poco/AccessExpireStrategy.h:52-64 | a run in which an entry four times as old as the limit is delivered |
| ExpireCache.ExpireStrategy.OnAdd | dev_accesss/3rd/poco_1.9.0/include/Poco/ExpireStrategy.h:60-72 | the key is indexed once, under the current time; key map and sorted index stay in bijection |
| ExpireCache.InsertIsBehind | dev_accesss/3rd/poco_1.9.0/include/Poco/ExpireStrategy.h:60-72 | a new entry of the time index stands behind those that are not later and in front of those that are |
| ExpireCache.ExpireStrategy.OnReplace | dev_accesss/3rd/poco_1.9.0/include/Poco/ExpireStrategy.h:109-120 | the walk along the index, which reads the clock at every entry, names exactly what has expired by its last reading |
| ExpireCache.ExpireStrategy.OnIsValid | dev_accesss/3rd/poco_1.9.0/include/Poco/ExpireStrategy.h:95-107 | valid exactly if the key is indexed and its age has not reached the limit |
| ExpireCache.ExpireStrategy.OnGet | dev_accesss/3rd/poco_1.9.0/include/Poco/AccessExpireStrategy.h:52-64 | the access strategy moves the key to the current time without losing or doubling any key; the other strategy does nothing |
| ExpireCache.ExpireStrategy.OnRemove | dev_accesss/3rd/poco_1.9.0/include/Poco/ExpireStrategy.h:74-82 | exactly the key leaves map and index |
| ExpireCache.ExpiringCache.Add | dev_accesss/3rd/poco_1.9.0/include/Poco/AbstractCache.h:207-233 | the operation does what the model does: the key is stored, then what has expired goes |
| ExpireCache.ExpiringCache.Get | dev_accesss/3rd/poco_1.9.0/include/Poco/AbstractCache.h:303-329 | the read is the step of the model with the two clock readings it made, and returns what that step delivers |
| ExpireCache.ExpiringCache.GetAllKeys | dev_accesss/3rd/poco_1.9.0/include/Poco/AbstractCache.h:165-178 | what has expired goes and the keys that are left are returned |
| ExpireCache.ExpiringCache.PerformAll | dev_accesss/3rd/poco_1.9.0/include/Poco/AbstractCache.h:75-178 | after any sequence of calls on a new cache, however the clock moves between and within them, what is held is what was last stored with the time of its last use, and whatever was used less than the limit ago is held |
| Fifo.FifoBuffer.Write | dev_accesss/3rd/poco_1.9.0/include/Poco/FIFOBuffer.h:219-251 | appends exactly as much of the source as there is room for and leaves all at the front of the memory, or nothing in the error or end-of-file state; it copies beyond the size exactly if the buffer is unsound and writable and the source is larger than the room |
| Fifo.FifoBuffer.Read | dev_accesss/3rd/poco_1.9.0/include/Poco/FIFOBuffer.h:174-195 | takes the oldest elements in order, as many as asked for and held, and keeps the rest in order |
| Fifo.FifoBuffer.ReadInto | dev_accesss/3rd/poco_1.9.0/include/Poco/FIFOBuffer.h:197-217 | the same, where a length of zero means everything |
| Fifo.FifoBuffer.Peek | dev_accesss/3rd/poco_1.9.0/include/Poco/FIFOBuffer.h:136-153 | copies the oldest elements and changes nothing |
| Fifo.FifoBuffer.Drain | dev_accesss/3rd/poco_1.9.0/include/Poco/FIFOBuffer.h:288-309 | drops the oldest elements; a length of zero or beyond the content drops all |
| Fifo.FifoBuffer.Copy | dev_accesss/3rd/poco_1.9.0/include/Poco/FIFOBuffer.h:311-330 | appends all of the source or, exactly when there is no room or the buffer is not writable, nothing |
| Fifo.FifoBuffer.Advance | dev_accesss/3rd/poco_1.9.0/include/Poco/FIFOBuffer.h:332-354 | takes the cells behind the data into the queue, keeping the data in front of them; only on an unsound buffer may they lie beyond the memory |
| Fifo.FifoBuffer.Begin | dev_accesss/3rd/poco_1.9.0/include/Poco/FIFOBuffer.h:356-369 | moves the data to the front of the memory without changing the queue |
| Fifo.FifoBuffer.At | dev_accesss/3rd/poco_1.9.0/include/Poco/FIFOBuffer.h:378-400 | element i of the queue, or the exception exactly beyond the end |
| Fifo.FifoBuffer.Resize | dev_accesss/3rd/poco_1.9.0/include/Poco/FIFOBuffer.h:116-134 | keeps or empties the queue as asked and refuses exactly what does not fit; the buffer is sound afterwards exactly if the data, where it was, or without it its position, lies within the new size |
| Fifo.ShrinkUnderData | dev_accesss/3rd/poco_1.9.0/include/Poco/FIFOBuffer.h:116-134 | a run that ends in an unsound buffer |
| Fifo.WriteAfterShrinking | dev_accesss/3rd/poco_1.9.0/include/Poco/FIFOBuffer.h:219-251 | on that buffer a write that fits the room succeeds, and one element more is copied beyond the size |
| Fifo.FifoBuffer.SetError | dev_accesss/3rd/poco_1.9.0/include/Poco/FIFOBuffer.h:408-433 | empties the queue and stops reading and writing, or starts them again |
| Fifo.FifoBuffer.Notify | dev_accesss/3rd/poco_1.9.0/include/Poco/FIFOBuffer.h:519-531 | one readable event at each change between empty and not empty, so that they alternate and the last one tells whether anything is there |
| Fifo.FifoBuffer.PerformAll | dev_accesss/3rd/poco_1.9.0/include/Poco/FIFOBuffer.h:174-433 | after any sequence of writes, copies, reads, drains and error changes on a new buffer, the content is that of the bounded queue, nothing was lost, doubled or reordered, and the readable events tell whether anything is there |
| Fifo.Buffer.Resize | dev_accesss/3rd/poco_1.9.0/include/Poco/Buffer.h:115-141 | new memory only where the capacity is exceeded, with the content copied on request |
| Hmac.HmacEngine.Digest | dev_accesss/3rd/poco_1.9.0/include/Poco/HMACEngine.h:78-91 | the result is HMAC of section 2 of RFC 2104 on everything since the start, for every key, and the engine starts afresh with the same key |
| Hmac.HmacEngine.Authenticate | dev_accesss/3rd/poco_1.9.0/include/Poco/HMACEngine.h:127-130 | this holds for every division of the message into chunks |
| Hmac.HmacEngine.constructor | dev_accesss/3rd/poco_1.9.0/include/Poco/HMACEngine.h:94-125 | keys shorter than, as long as and longer than the block leave both pads as the standard prescribes |
| Hmac.HmacEngine.SetKey | dev_accesss/3rd/poco_1.9.0/include/Poco/HMACEngine.h:94-118 | both pads hold the key, or its digest if it is longer than the block, filled up with zeros |
| Hmac.TrailingZerosAreIgnored | dev_accesss/3rd/poco_1.9.0/include/Poco/HMACEngine.h:94-118 | zeros at the end of a key that fits the block make no difference to any code |
| Hmac.FormulaOfTheStandard | dev_accesss/3rd/poco_1.9.0/include/Poco/HMACEngine.h:94-118 | for keys of every length the code is the formula of section 2 of RFC 2104 with its two constants |
| Archive.FileSystem.ArchiveByNumber | dev_accesss/3rd/poco_1.9.0/include/Poco/ArchiveStrategy.h:110-139 | every file below the first free number moves up by one, the file itself becomes number zero, each rename is onto a free name, and no other file is touched |
| Archive.NothingIsLost | dev_accesss/3rd/poco_1.9.0/include/Poco/ArchiveStrategy.h:110-139 | there are as many files as before, with the same contents |
| Archive.ShiftIsDetermined | dev_accesss/3rd/poco_1.9.0/include/Poco/ArchiveStrategy.h:110-139 | there is only one such outcome |
| Archive.FileSystem.FirstFree | dev_accesss/3rd/poco_1.9.0/include/Poco/ArchiveStrategy.h:116-124 | the search ends at the first number whose name is free |
| Archive.FileSystem.Archive | dev_accesss/3rd/poco_1.9.0/include/Poco/ArchiveStrategy.h:92-107 | the log goes under the name with the time exactly if that name is free; otherwise it stays and the older archive is numbered |
| Archive.DecimalIsInjective | dev_accesss/3rd/poco_1.9.0/include/Poco/ArchiveStrategy.h:120-122 | different numbers give different names |
| Archive.DecimalReads | dev_accesss/3rd/poco_1.9.0/include/Poco/ArchiveStrategy.h:120-122 | the number in a name is made of digits, reads as the number and starts with a zero for zero alone |
| Modbus.Client.ConsecutiveIdsDiffer | dev_accesss/dev_accesss/src/modbus.cpp:528-532 | any 65536 consecutive requests of a client carry different transaction ids, also where the counter wraps around |
| Modbus.IdsAreDistinct | dev_accesss/dev_accesss/src/modbus.cpp:106-116 | two requests carry the same id exactly if their distance is a multiple of 65536 |
| Modbus.Client.SendRequest | dev_accesss/dev_accesss/src/modbus.cpp:174-185 | the twelve bytes sent are read by the header layout of the messaging guide as the request with the id that is due and its arguments in 16 bits |
| Modbus.Client.ReadRegisters | dev_accesss/dev_accesss/src/modbus.cpp:199-273 | exactly when which exception is thrown and when the reply or the loop leaves the message; exactly one frame is sent, and only if the guards pass; the words of the reply are delivered |
| Modbus.Client.ReadBits | dev_accesss/dev_accesss/src/modbus.cpp:284-359 | the same for coils and input bits |
| Modbus.Client.RegisterReply | dev_accesss/dev_accesss/src/modbus.cpp:216-220 | a reply with up to 125 registers packed as the application protocol prescribes is no exception and decodes to those registers |
| Modbus.Client.BitReply | dev_accesss/dev_accesss/src/modbus.cpp:301-304 | a reply with up to 2000 bits packed as the application protocol prescribes is no exception and decodes to those bits |
| Modbus.Client.ReadRegistersFrom | dev_accesss/dev_accesss/src/modbus.cpp:199-235 | one request goes out, with the id that is due, and if the server answers with the packed registers the caller gets the registers |
| Modbus.Client.ReadBitsFrom | dev_accesss/dev_accesss/src/modbus.cpp:284-321 | one request goes out, with the id that is due, and if the server answers with the packed bits the caller gets the bits |
| Modbus.Client.ExceptionsThrow | dev_accesss/dev_accesss/src/modbus.cpp:557-581 | an exception reply as section 7 of the application protocol prescribes makes the client throw exactly for the eight codes listed there |
| Modbus.Client.ReadRegistersRefused | dev_accesss/dev_accesss/src/modbus.cpp:199-273 | a request that the server refuses with such a code goes out, ends in the exception and leaves the buffer as it was |
| Modbus.Client.ReadBitsRefused | dev_accesss/dev_accesss/src/modbus.cpp:284-359 | the same for coils and input bits |
| Modbus.Client.WriteSingle | dev_accesss/dev_accesss/src/modbus.cpp:367-436 | exactly when a write of a coil or a register throws which exception, and the one frame it sends |
| Modbus.Client.RefusedWrite | dev_accesss/dev_accesss/src/modbus.cpp:420-422 | the reply to a register write is looked at as one to a coil write, so the refusal of a coil is noticed and that of a register never |
| Modbus.Client.WriteRefused | dev_accesss/dev_accesss/src/modbus.cpp:367-436 | a refused write of a coil ends in the exception, a refused write of a register as if it had been done |
| Modbus.RegistersDecode | dev_accesss/dev_accesss/src/modbus.cpp:216-220 | the word decoded at i is the register packed at i |
| Modbus.BitsDecode | dev_accesss/dev_accesss/src/modbus.cpp:301-304 | the bit decoded at i is the bit packed at i |
| Modbus.RegistersFit | dev_accesss/dev_accesss/src/modbus.cpp:203-220 | the loop stays within the 260 bytes exactly up to 125 registers |
| Modbus.BitsFit | dev_accesss/dev_accesss/src/modbus.cpp:288-304 | the loop stays within the 260 bytes exactly up to 2008 bits |

## Left out

- XmlRoundTrip.DocumentRoundTrip: white space condensed, the library's default. The well-formed documents are a condition that is enough: exact for comments, CDATA sections, unknown tags, the text of elements and the values of attributes and of declaration fields, each by itself; no claim is made about which other documents come back as a whole.
- XmlInverse.EscapeInverse: text that both holds a hexadecimal reference and breaks off a sequence is outside the two equivalences.
- XmlParser.Parse: `useMicrosoftBOM`, which says that a byte order mark was there and is looked at when saving to a file.
- XmlEntity.GetEntityLoop: `strchr` and the widths of `unsigned` and `unsigned long` are those of the Windows targets of the program.
- XmlPosition.PositionCounts: points within a line break or a character are left to `PathIndependent`, which covers them.
- XmlWords.CondensedWords: text with references in it, which `XmlInverse.CondensedInverse` covers as far as it is printed.
- XmlParse.ParseDocument: what the source does to pointers that have passed the NUL is one outcome, `Wild`; which texts lead there is told for comments, CDATA sections and escaped values, not for whole documents; the nodes are values, and `XmlDom` is about how they are linked; the memory of the parser's nodes on errors is not modelled.
- XmlDom.DomNode.RemoveChild: freeing memory is leaving the set of nodes; what is below a removed node is given by the caller.
- XmlDom.DomNode.Clone: takes the attributes of an element as a sequence, which `XmlAttributes` refines to the ring; `userData`, locations and the error state of documents are not copied in the model.
- LruCache.LruStrategy.constructor: a size below one, for which the source throws, is excluded.
- LruCache.LruCache.Add: mutexes, copies of the value behind shared pointers, and the cache's own events to the outside are not modelled.
- ExpireCache.ExpiringCache.Get: the clock is read in whole units and never goes back.
- Events.RunInvariant: the code can deadlock (`Events.RemovalMeetsCallback`), and of threads that wait for each other in a longer circle nothing is said. `notifyAsync` is a notification whose calls run on a worker thread; what its `ActiveResult` tells the caller and exceptions carried over by it are not modelled, nor are priorities and expiring delegates.
- LinearHash.LinearHashTable.Insert: `size_t` is unbounded, and values are entries whose equality is that of their keys; an iterator is a pair of positions.
- Fifo.FifoBuffer.Write: source and memory together are smaller than the address space; what is copied beyond the size is not in the model. The mutex and observers that call back into the buffer are not modelled.
- Fifo.FifoBuffer.SetEof: `writable` events are stated per step; with the end-of-file and error flags they do not alternate.
- Hmac.HmacEngine.constructor: digests are no longer than the block, as the standard requires; the reference to the digest that `digest` returns is a value.
- Archive.FileSystem.Archive: compression and the formatting of the time; another process that touches the files in between.
- Modbus.Client.SendRequest: frames that write several values, whose length fields and coil packing do not follow the standards, are not modelled.
- Modbus.Client.ReadRegisters: sliced exceptions are one outcome; a reply or a loop that leaves the message is the outcome `Overrun`, and what it overwrites is not in the model. No reply is compared with its request, in the source as in the model.
- The STL streaming of TinyXML, printing to a file and number conversions.
- Configuration, device classes, database, sockets, logging and the server: they would add only easy members.
