# Verification of the core of the repository

A Dafny 4.11 project that models six components of the repository and proves what they promise.
`dafny verify dfyconfig.toml` checks all of it.

**The hash table of `google::protobuf::Map`** (`Arithmetic`, `Chains`, `Layout`, `HashTable`,
`MapContainer`, `MapRuns`). `InnerMap` is modelled with its array of buckets, its linked nodes and its
trees, all updated in place; a pair of buckets shares a tree exactly if their entries are equal and not
null. `Layouts.Layout` is a snapshot of a table as a value and holds the table invariant: each node is
in the bucket of its hash or in the tree of the pair, lists are no longer than 8, nodes in trees have a
null `next`. Hash, seed and key order are arbitrary; `&` with the number of buckets less one is taken
bit by bit. The main result is `MapRuns.Run`: any run of operations answers as a plain map does.
Iterators are objects that go stale and repair themselves.

**The MIME parser and printer** (`MimeText`, `MimeHeaders`, `MimeContentType`, `MimeMultipart`,
`MimeParts`, `MimeInvention`, `MimeCompletion`, `MimeSharing`, `MimeSharedCompletion`, `MimeObjects`,
`MimeSpelling`, `MimeLaws`, `MimeLetter`). The grammars are functions that read greedily and choose in
order. The parts that survive printing and parsing are characterised exactly, and every accepted input
is printed back byte for byte. `MimeInvention` adds the boundaries that the printer makes from the
clock, a sequence of readings; `MimeSharing` does so for trees in which a part is in several places.
`MimeObjects` has the part objects, with the parser that builds them and the printer that walks them and
completes their headers. `MimeSpelling` and `MimeLaws` say what the headers, types and lines are with
their characters written out, and `MimeLetter` reads one whole letter.

**MD5** (`Words`, `Md5Steps`, `Md5Spec`, `Md5`, `Md5Bits`, `Md5Vectors`). Words are naturals below 2^32
with their operators defined bit by bit. `Md5Spec.Digest` follows section 3 of RFC 1321; the class
`Md5.MD5` is proved against it for any division of the message into updates. `Md5Vectors` has two
digests of the test suite of the RFC, step by step on bit-vectors (`Md5Bits`).

**The generated protocol buffer messages** (`Wire`, `Utf8`, `CodedStreams`, `ProtoValues`, `ProtoParse`,
`ProtoRecords`, `ProtoRoundTrip`, `ProtoMixed`, `ProtoMisread`, `ProtoObjects`, `ProtoSchemas`,
`ProtoClasses`). The code of the six classes is one template filled in with their fields. The model is
that template, with the list of fields as a parameter, and `ProtoSchemas` gives the six lists, and
`ProtoClasses` the bytes and the round trip of each class over explicit values; the rows below cite one
class each, and hold for all of them. `ProtoObjects.MessageObject` has the methods that update objects
in place: parsing, clearing, merging, measuring and both serializers.

**The symbol index of `DescriptorIndex`** (`SymbolIndex`), with the nine-step argument of its header.

**Percent-encoding of URIs** (`UriEncoding`), over signed characters.

`Results` holds the two datatypes for missing values and errors, `Characters` the classes of characters.

## Where the code and what is said of it differ

- A list of integers may come packed, as single integers, or mixed, and should parse to the same list.
  For single integers the generated code passes the tag of the *packed* field to the reader
  (`ad/AdPlayPolicy.pb.cc:2736-2740`, and the same at 856-864 and 872-880), and the reader takes fields
  with that tag for more single integers as long as the array has room
  (`include/protobuf-3.2.0/include/google/protobuf/wire_format_lite_inl.h:239-244`). So a packed record
  right after a single integer is misread, and the result depends on the capacity of the array.
  `ProtoMixed.MixedEncodings` gives the exact condition under which the pieces of a list are read as
  what they are, `ProtoMixed.LengthMisread` says what happens otherwise, and
  `ProtoSchemas.MixedMisread` is a message that is parsed to wrong values with no failure. If only the
  last piece can be misread, the condition is exact for the list that results as well
  (`ProtoMisread.MixedExactly`); with more pieces after it, a misread list can come out right by
  coincidence (`ProtoSchemas.MisreadUnnoticed`).
- For the same reason an unknown field can change the result: between a single integer and a packed
  record it keeps them apart (`ProtoMixed.KeptApart`, and `ProtoSchemas.UnknownBetween` with bytes).
  `ProtoMixed.UnknownFieldsIgnored` holds for all inputs whose known fields are read one by one.
- The serializers check strings for UTF-8 but write them all the same, while the parser refuses them.
  `ProtoRoundTrip.RoundTrip` is an equivalence for that reason, and `ProtoSchemas.NotTextRefused` a
  message that is not read back.
- Encoding negative characters in a URI loses them: `UriEncoding.RoundTripExactly` is an equivalence, and
  `UriEncoding.NegativeLost` shows -1 come back as an `o`.
- A multipart whose prolog is empty but not flagged as missing cannot be parsed back
  (`MimeParts.EmptyPrologRejected`). The constructor and one `append_part` make such a part
  (`MimeParts.BuiltRejected`).
- A boundary that the printer makes up is added at the end of the Content-Type header. The parser finds
  it there exactly if the grammar takes the header to its end (`MimeInvention.BoundaryFound`), and that is
  also exactly when the completed part prints the same text again
  (`MimeCompletion.CompletedExactly`, and `MimeSharedCompletion.SharedExactly` for trees in which a part is in
  several places). `MimeCompletion.StrayRejected` is a part that prints what the parser rejects, and gets
  another boundary each time it is printed.
- Input that ends within a sub-message or a packed record is not refused for that: a length past the end
  is cut to it (`ProtoRoundTrip.LengthPastEnd`), and a sub-message whose length is missing is taken for an
  empty one (`ProtoRoundTrip.LengthMissing`).
- The comment on shrinking (`include/protobuf-3.2.0/include/google/protobuf/map.h:1137-1139`) hopes to
  avoid growing again soon. With 64 buckets and a new size of 12 the table shrinks to 16 buckets, whose
  cutoff is 12 (`Arithmetic.GrowsAgain`); the bound that holds is in `HashTable.InnerMap.SizeToShrinkTo`.
- The loop test of MD5's `update` wraps around for lengths near 2^32 with a buffer that is not empty
  (`Md5Spec.LoopTest`, and `Md5Spec.DoesNotFit` with numbers).
- `finalize` means to clear its buffer and clears one byte (`md5.cc:214`); nothing is claimed about it.

## Model

| member | source | states |
|---|---|---|
| MapRuns.Run | include/protobuf-3.2.0/include/google/protobuf/map.h:915-1111 | Over every run of insert, operator[], find, erase, clear and size, whatever the hash, key order and seed, the replies are those of a plain map |
| MapRuns.Perform | include/protobuf-3.2.0/include/google/protobuf/map.h:1512-1622 | One operation on the container changes its contents, and replies, as the same step on a plain map does |
| HashTable.InnerMap.constructor | include/protobuf-3.2.0/include/google/protobuf/map.h:722-733 | A new table is empty and valid, with a power of two of buckets, 8 at the least, and no first non-null bucket |
| HashTable.InnerMap.Insert | include/protobuf-3.2.0/include/google/protobuf/map.h:958-974 | Inserts exactly if the key is absent; otherwise nothing changes and the old node is returned; the invariant of the table is kept through conversions and resizes |
| HashTable.InnerMap.Index | include/protobuf-3.2.0/include/google/protobuf/map.h:995-998 | operator[] finds the node of the key, or adds one with the default value |
| HashTable.InnerMap.Find | include/protobuf-3.2.0/include/google/protobuf/map.h:954-955 | Hits exactly the one node of the key, or end if the key is absent |
| HashTable.InnerMap.FindHelper | include/protobuf-3.2.0/include/google/protobuf/map.h:1033-1058 | The node with the key if any, the bucket where it is or belongs, and an iterator that is accurate at once |
| HashTable.InnerMap.Erase | include/protobuf-3.2.0/include/google/protobuf/map.h:1000-1030 | Takes out one node, even through a stale iterator; the iteration order of all others is unchanged and the first non-null index stays exact |
| HashTable.InnerMap.EraseFromLinkedList | include/protobuf-3.2.0/include/google/protobuf/map.h:1192-1199 | The list without the node, linked again in the same order |
| HashTable.InnerMap.TakeFromList | include/protobuf-3.2.0/include/google/protobuf/map.h:1005-1009 | Unlinking a node leaves the table as if the node had never been in its bucket |
| HashTable.InnerMap.TakeFromTree | include/protobuf-3.2.0/include/google/protobuf/map.h:1010-1021 | Erasing from a tree; a tree that becomes empty frees both of its buckets |
| HashTable.InnerMap.AdvanceFirst | include/protobuf-3.2.0/include/google/protobuf/map.h:1024-1029 | After an erasure the first non-null index is exact again |
| HashTable.InnerMap.Clear | include/protobuf-3.2.0/include/google/protobuf/map.h:915-945 | Lists and pair trees are all emptied, and the table stays valid with the same number of buckets |
| HashTable.InnerMap.InsertUnique | include/protobuf-3.2.0/include/google/protobuf/map.h:1061-1091 | Adds exactly one node, to a list, to a tree, or converting a list of 8; the whole table invariant and the first non-null index hold afterwards |
| HashTable.InnerMap.InsertUniqueInList | include/protobuf-3.2.0/include/google/protobuf/map.h:1095-1099 | The node becomes the head of its bucket and nothing else moves |
| HashTable.InnerMap.InsertUniqueInTree | include/protobuf-3.2.0/include/google/protobuf/map.h:1103-1111 | The node joins the tree its pair of buckets shares, with a null next, and the iterator has the even bucket |
| HashTable.InnerMap.TreeConvert | include/protobuf-3.2.0/include/google/protobuf/map.h:1227-1241 | Both buckets of the pair point to one new tree with exactly the nodes of their two lists, in key order and unlinked |
| HashTable.InnerMap.CopyListToTree | include/protobuf-3.2.0/include/google/protobuf/map.h:1245-1256 | All nodes of the list are in the tree, which stays sorted; their next is null; the count is that of the list |
| HashTable.InnerMap.TableEntryIsTooLong | include/protobuf-3.2.0/include/google/protobuf/map.h:1260-1271 | True exactly for a list of 8 nodes, and no list is ever longer |
| HashTable.InnerMap.EntryKinds | include/protobuf-3.2.0/include/google/protobuf/map.h:1213-1225 | Pointer equality of the two buckets of a pair tells trees from lists, in every reachable table |
| HashTable.InnerMap.Resize | include/protobuf-3.2.0/include/google/protobuf/map.h:1155-1171 | In either direction, the same nodes are kept and the whole table invariant holds for the new number of buckets |
| HashTable.InnerMap.TransferBucket | include/protobuf-3.2.0/include/google/protobuf/map.h:1163-1169 | One bucket of the old table, or one pair with a tree, is moved; exactly the nodes below the next bucket have been moved |
| HashTable.InnerMap.TransferList | include/protobuf-3.2.0/include/google/protobuf/map.h:1173-1180 | Every node of an old list is reinserted although reinsertion rewrites the links being followed |
| HashTable.InnerMap.TransferTree | include/protobuf-3.2.0/include/google/protobuf/map.h:1182-1190 | Every node of an old tree is reinserted |
| HashTable.InnerMap.SizeToShrinkTo | include/protobuf-3.2.0/include/google/protobuf/map.h:1136-1145 | The search for the reduction factor ends with the least one past the first that brings the estimate to the cutoff, and gives a smaller power of two, 8 or more, with 5 * size < 6 * buckets |
| HashTable.InnerMap.ResizeIfLoadIsOutOfRange | include/protobuf-3.2.0/include/google/protobuf/map.h:1121-1152 | The same nodes in a valid table of exactly the number of buckets that the load calls for, and the load bound then holds for the size to come |
| HashTable.Iterator.SearchFrom | include/protobuf-3.2.0/include/google/protobuf/map.h:815-832 | The first node at or after a bucket in iteration order, with accurate bucket and tree place |
| HashTable.Iterator.RevalidateIfNecessary | include/protobuf-3.2.0/include/google/protobuf/map.h:873-898 | A stale iterator whose node is still in the table is brought to the real bucket or tree place of the node, and told apart as list or tree |
| HashTable.Iterator.Increment | include/protobuf-3.2.0/include/google/protobuf/map.h:844-861 | Goes to the successor of the node in iteration order, also from a stale iterator |
| MapContainer.Map.Traverse | include/protobuf-3.2.0/include/google/protobuf/map.h:786-861 | begin and ++ visit every element exactly once, then reach the end |
| MapContainer.Map.InsertAllThenAdvance | include/protobuf-3.2.0/include/google/protobuf/map.h:873-898 | After any number of insertions, with their conversions and resizes, an old iterator still advances to the real successor of its node |
| MapContainer.Map.EraseAt | include/protobuf-3.2.0/include/google/protobuf/map.h:1608-1616 | Returns the old successor, and the order of the other elements is unchanged |
| MapContainer.Map.EraseKey | include/protobuf-3.2.0/include/google/protobuf/map.h:1599-1607 | Removes the key if present, and returns how many elements it removed |
| MapContainer.Map.EraseRange | include/protobuf-3.2.0/include/google/protobuf/map.h:1617-1621 | Removes exactly the elements from first up to last, and keeps the order of the rest |
| MapContainer.Map.Clear | include/protobuf-3.2.0/include/google/protobuf/map.h:1622 | Ends with an empty map |
| Layouts.Layout.OrderFacts | include/protobuf-3.2.0/include/google/protobuf/map.h:711-719 | The order of iteration holds every node exactly once |
| Layouts.Layout.KeyPlaced | include/protobuf-3.2.0/include/google/protobuf/map.h:702-706 | The node of a key is in the bucket of its hash, or in the even bucket of the pair that shares a tree |
| Layouts.Layout.PushFrontOK | include/protobuf-3.2.0/include/google/protobuf/map.h:1095-1099 | A node pushed on a list shorter than 8 keeps the table invariant |
| Layouts.Layout.WithTreeOK | include/protobuf-3.2.0/include/google/protobuf/map.h:1227-1241 | Giving the two lists of a pair to a shared tree keeps the table invariant |
| Layouts.Layout.IntoTreeOK | include/protobuf-3.2.0/include/google/protobuf/map.h:1103-1111 | A node added to a shared tree keeps the table invariant |
| Layouts.Layout.RemovedOK | include/protobuf-3.2.0/include/google/protobuf/map.h:1000-1021 | Taking a node out of its list or tree keeps the table invariant |
| Layouts.Layout.RemovedOrder | include/protobuf-3.2.0/include/google/protobuf/map.h:1000-1021 | Taking a node out leaves the iteration order of the others as it was |
| Arithmetic.ShrunkSize | include/protobuf-3.2.0/include/google/protobuf/map.h:1136-1145 | The load bound after shrinking, from the way the reduction factor is chosen |
| Arithmetic.GrowsAgain | include/protobuf-3.2.0/include/google/protobuf/map.h:1137-1145 | With a new size of 12, 64 buckets shrink to 16, which is at their cutoff again |
| Arithmetic.NextSizeIs | include/protobuf-3.2.0/include/google/protobuf/map.h:1121-1154 | The table doubles exactly when the size to come reaches three quarters of the buckets, and shrinks exactly when it is no more than a quarter of that and there are more than 8 buckets |
| Arithmetic.ShrunkExactly | include/protobuf-3.2.0/include/google/protobuf/map.h:1135-1147 | The size to shrink to is the greatest of n/2, n/4 and so on, but 8 at the least, of which three quarters do not exceed the elements with a quarter more and one |
| Arithmetic.MaskIs | include/protobuf-3.2.0/include/google/protobuf/map.h:1273-1284 | Masking bit by bit with one less than a power of two is the remainder |
| MimeParts.ParsePrint | include/cpp-netlib-0.9.4/boost/mime.hpp:700-742 | Parse, then print: every accepted input is reproduced byte for byte, at any nesting, and the parts are well-formed |
| MimeParts.PrintParse | include/cpp-netlib-0.9.4/boost/mime.hpp:568-605 | Print, then parse: every well-formed part tree is given back |
| MimeParts.RoundTripExactly | include/cpp-netlib-0.9.4/boost/mime.hpp:568-742 | Where no boundary is missing, the parts that survive printing and parsing are exactly the well-formed ones |
| MimeParts.EmptyPrologRejected | include/cpp-netlib-0.9.4/boost/mime.hpp:272-274 | A multipart with an empty prolog that is not flagged missing prints what the parser rejects |
| MimeParts.BuiltRejected | include/cpp-netlib-0.9.4/boost/mime.hpp:572-605 | A multipart as the constructor and one append_part make it prints text that the parser rejects; with the prolog flagged missing it is well-formed |
| MimeInvention.StreamRoundTrip | include/cpp-netlib-0.9.4/boost/mime.hpp:568-605 | Whatever the clock reads, with boundaries invented or not, the parts that survive printing and parsing are exactly the well-formed ones |
| MimeCompletion.CompletedExactly | include/cpp-netlib-0.9.4/boost/mime.hpp:580-605 | The completed part prints the text that was printed exactly if the grammar takes every header that has got a boundary to its end |
| MimeCompletion.CompletedRoundTrip | include/cpp-netlib-0.9.4/boost/mime.hpp:580-605 | What was printed is parsed back as the completed part exactly if the grammar takes every header that has got a boundary to its end and the part is well-formed; the first is also exactly when it is printed the same way again without a look at the clock |
| MimeSharedCompletion.SharedExactly | include/cpp-netlib-0.9.4/boost/mime.hpp:568-605 | With parts in several places, completed in the first and printed completed in the next, the same: the tree prints the text that was printed exactly if the grammar takes every such header to its end |
| MimeSharing.UnsharedIs | include/cpp-netlib-0.9.4/boost/mime.hpp:568-605 | Where no part is in two places, identities make no difference |
| MimeSharing.SharedPrinted | include/cpp-netlib-0.9.4/boost/mime.hpp:568-605 | Where no boundary is missing, the text is the plain one and no header changes, parts in several places or not |
| MimeInvention.StreamPrinted | include/cpp-netlib-0.9.4/boost/mime.hpp:580-605 | Where no boundary is missing, nothing is invented and the clock is not read |
| MimeInvention.BoundaryFound | include/cpp-netlib-0.9.4/boost/mime.hpp:522-539 | A boundary added to a header is the one found in it exactly if the grammar takes the header to its end |
| MimeInvention.TypeThen | include/cpp-netlib-0.9.4/boost/mime.hpp:168-178 | A phrase after a header is one more piece of what follows the subtype, and type and subtype stay |
| MimeInvention.PhrasesAfterRest | include/cpp-netlib-0.9.4/boost/mime.hpp:173-178 | A phrase after a list of phrases is read after what the grammar leaves of them |
| MimeInvention.OpenPhrase | include/cpp-netlib-0.9.4/boost/mime.hpp:173-178 | What is left of a header and a boundary after it make a phrase only if an open quote takes in the boundary phrase |
| MimeCompletion.StrayRejected | include/cpp-netlib-0.9.4/boost/mime.hpp:522-539 | A header with text that the grammar does not take gets a boundary that is not found: what is printed is rejected, and printing again adds another |
| MimeHeaders.HeadersParsed | include/cpp-netlib-0.9.4/boost/mime.hpp:100-110 | Headers that parse are in the grammar and print back as they were |
| MimeHeaders.HeadersRead | include/cpp-netlib-0.9.4/boost/mime.hpp:100-110 | Headers of the grammar, printed, parse back whatever follows the empty line |
| MimeHeaders.HeaderRead | include/cpp-netlib-0.9.4/boost/mime.hpp:101-110 | One printed header, with folded lines, parses back if no blank follows it |
| MimeMultipart.MultipartParsed | include/cpp-netlib-0.9.4/boost/mime.hpp:288-292 | A multipart body that parses is its sections joined by separator lines, and no section holds a separator |
| MimeMultipart.MultipartRead | include/cpp-netlib-0.9.4/boost/mime.hpp:288-292 | Sections without a separator in them, joined and closed, are split into the same sections |
| MimeMultipart.PrologParsed | include/cpp-netlib-0.9.4/boost/mime.hpp:272-275 | A prolog that parses prints back, and no separator line can be read in it |
| MimeMultipart.PrologRead | include/cpp-netlib-0.9.4/boost/mime.hpp:272-275 | A printed prolog in which no separator line can be read parses back, missing or not |
| MimeText.NoStraddle | include/cpp-netlib-0.9.4/boost/mime.hpp:288-290 | A separator cannot begin inside a section and end in the separator that follows it |
| MimeMultipart.PrologOccurrences | include/cpp-netlib-0.9.4/boost/mime.hpp:272-275 | The separator line after a prolog is the first one read exactly if none can be read in the prolog with line ends around it |
| MimeContentType.ContentTypeRead | include/cpp-netlib-0.9.4/boost/mime.hpp:164-192 | A type, a subtype and any list of quoted phrases, written out, parse as what they are |
| MimeSpelling.SpelledRead | include/cpp-netlib-0.9.4/boost/mime.hpp:168-183 | Every way to write a content type, with leading blanks, white space of blanks, tabs, line ends and comments, tokens and quoted values, is read as what it says |
| MimeSpelling.ReadSpelled | include/cpp-netlib-0.9.4/boost/mime.hpp:168-183 | What is read of a header is written at its start in one of those ways, and no phrase follows it |
| MimeSpelling.FoldedType | include/cpp-netlib-0.9.4/boost/mime.hpp:168-222 | A header folded before its boundary is read, and the boundary found, for every type, subtype and boundary that can be quoted |
| MimeSpelling.TokenChars | include/cpp-netlib-0.9.4/boost/mime.hpp:180 | A token consists of printable characters but for sixteen that are listed |
| MimeLetter.LetterRead | include/cpp-netlib-0.9.4/boost/mime.hpp:699-743 | A digest with a folded header, a prolog, a message without headers and a text, character by character, is read as the parts it consists of |
| MimeLaws.HeaderIs | include/cpp-netlib-0.9.4/boost/mime.hpp:99-109 | The headers of the grammar are letters, digits and three signs for a name, and a value of printable text with tabs that may be folded |
| MimeLaws.Kinds | include/cpp-netlib-0.9.4/boost/mime.hpp:635-655 | Whatever the case of the letters, multipart makes a multipart, and message a message unless the subtype is delivery-status |
| MimeLaws.SectionTypes | include/cpp-netlib-0.9.4/boost/mime.hpp:724 | The sections of multipart/digest are messages by default, all others plain text |
| MimeLaws.TypeHeader | include/cpp-netlib-0.9.4/boost/mime.hpp:511-514 | The first header named Content-Type counts, whatever the case of its letters, or else the default |
| MimeLaws.BoundaryIs | include/cpp-netlib-0.9.4/boost/mime.hpp:206-222 | The boundary is the value of the first phrase of that name, whatever the case of its letters |
| MimeLaws.MultipartIs | include/cpp-netlib-0.9.4/boost/mime.hpp:590-602 | The text of a multipart with its lines written out, with a line end before the first unless there is no prolog |
| MimeLaws.InventedIs | include/cpp-netlib-0.9.4/boost/mime.hpp:587 | An added boundary is the name of the package and the clock in decimal digits, eight characters at the least |
| MimeLaws.HeaderCompleted | include/cpp-netlib-0.9.4/boost/mime.hpp:521-539 | The boundary phrase is added to the first Content-Type header, or to the default type in a new header at the end |
| MimeLaws.AcceptedExactly | include/cpp-netlib-0.9.4/boost/mime.hpp:699-743 | The parser accepts exactly the texts of well-formed parts |
| MimeLaws.BodyRefused | include/cpp-netlib-0.9.4/boost/mime.hpp:303-309 | A body without a separator line, with an empty section, or without the terminator is refused for just that |
| MimeContentType.Boundary | include/cpp-netlib-0.9.4/boost/mime.hpp:206-222 | A boundary that is found is not empty and consists of printable characters |
| MimeObjects.BasicMime.Parse | include/cpp-netlib-0.9.4/boost/mime.hpp:700-742 | Builds new part objects that stand for what the recursive parser yields, or fails with the same error |
| MimeObjects.BasicMime.ReadMultipartBody | include/cpp-netlib-0.9.4/boost/mime.hpp:299-321 | Fills in prolog, sub-parts and epilog of a multipart, or reports the first thing that is wrong |
| MimeObjects.BasicMime.AppendPart | include/cpp-netlib-0.9.4/boost/mime.hpp:467-470 | Adds a sub-part unless the part is simple, or a message part that has one |
| MimeObjects.BasicMime.Print | include/cpp-netlib-0.9.4/boost/mime.hpp:752-762 | As printing a value does, if no part is in two places or no boundary is missing; in every tree, with the boundaries added it prints the same exactly if the grammar takes every header that has got one to its end |
| MimeObjects.BasicMime.StreamOut | include/cpp-netlib-0.9.4/boost/mime.hpp:568-605 | Writes the text of the part after what is in the stream and completes the headers that lack a boundary with readings of the clock, also where a part is in several places, or fails exactly where the program throws |
| MimeObjects.BasicMime.FindOrInventBoundary | include/cpp-netlib-0.9.4/boost/mime.hpp:582-588 | The boundary of the header, or one from the clock that is added to it |
| MimeObjects.BasicMime.AppendPhraseToContentType | include/cpp-netlib-0.9.4/boost/mime.hpp:522-539 | Adds the phrase to the first Content-Type header, made from the default type if there is none, unless it does not parse or has one |
| MimeObjects.BasicMime.WriteHeaders | include/cpp-netlib-0.9.4/boost/mime.hpp:340-346 | Writes the header lines and the empty line |
| MimeObjects.BasicMime.WriteBoundary | include/cpp-netlib-0.9.4/boost/mime.hpp:354-361 | Writes one separator or terminator line |
| MimeObjects.BasicMime.WriteSections | include/cpp-netlib-0.9.4/boost/mime.hpp:596-601 | Writes each sub-part after its separator line, the first one without a leading line end if the prolog is missing, and leaves the sub-parts completed |
| Md5.MD5.Update | md5.cc:73-114 | Whatever the pieces, the state is the fold of the transformation over the whole blocks so far, the buffer holds the rest, and the counts the length in bits; a finalized context is left alone |
| Md5.MD5.Finalize | md5.cc:184-218 | The digest is that of RFC 1321 of the whole message; a second call changes nothing |
| Md5.DigestFile | md5.cc:119-129 | The digest of a file does not depend on how the reads divide it |
| Md5.MD5.Transform | md5.cc:344-432 | The state becomes the compression of the state and one block |
| Md5.MD5.Round1 | md5.cc:352-368 | The 16 unrolled steps of round 1 are steps 1 to 16 of the table form |
| Md5.MD5.Round2 | md5.cc:370-386 | The 16 unrolled steps of round 2 are steps 17 to 32 of the table form |
| Md5.MD5.Round3 | md5.cc:388-404 | The 16 unrolled steps of round 3 are steps 33 to 48 of the table form |
| Md5.MD5.Round4 | md5.cc:406-422 | The 16 unrolled steps of round 4 are steps 49 to 64 of the table form |
| Md5.MD5.Encode | md5.cc:438-448 | Masks and shifts give the bytes of the words, low-order byte first |
| Md5.MD5.Decode | md5.cc:455-462 | Shifts and ors give the words of the bytes, low-order byte first |
| Md5.MD5.AddToCount | md5.cc:86-90 | The two count words, with carry, become those of the longer message |
| Md5.MD5.Memset | md5.cc:480-486 | Sets as many bytes as it is told, which in finalize is one |
| Md5Steps.StepsBijective | md5.cc:352-422 | For a fixed block the 64 steps are a bijection on the four registers |
| Md5Steps.RoundFunctionBits | md5.cc:501-515 | F, G, H and I bit by bit: two selections, a parity, and a conditional inversion |
| Md5Steps.RotateBit | md5.cc:492-494 | Bit i of a rotated word is the bit n places below, around the end |
| Md5Steps.RotateBack | md5.cc:492-494 | A rotation is undone by rotating on to the full width |
| Md5Steps.FourSteps | md5.cc:353-356 | Four unrolled calls with the registers in turn are four steps of the table form |
| Md5Spec.CountAdded | md5.cc:86-90 | The carry test and the two shifts add the length in bits modulo 2^64 |
| Md5Spec.BitCountIs | md5.cc:86-90 | The count words are 8 times the length modulo 2^64 |
| Md5Spec.BufferIndex | md5.cc:84 | The index computed from the count is the length modulo 64 |
| Md5Spec.LoopTest | md5.cc:102-104 | The 32-bit loop test is right up to the last index, and there exactly if it does not wrap around |
| Md5Spec.DoesNotFit | md5.cc:102-104 | With one byte in the buffer and the greatest length, the test wraps around |
| Md5Spec.UsuallyFits | md5.cc:102-104 | It does not below 2^32 - 63 bytes, nor for any length with an empty buffer |
| Md5Vectors.DigestOfEmpty | md5.cc:311-432 | The digest of the empty message has the sixteen bytes of section A.5 of RFC 1321 |
| Md5Vectors.DigestOfAbc | md5.cc:311-432 | The digest of the message abc has the sixteen bytes of section A.5 of RFC 1321 |
| Md5Spec.PadLengthIs | md5.cc:203-204 | The padding length is the one from 1 to 64 bytes that leaves 448 bits modulo 512 |
| Md5Spec.WordsOfBytes | md5.cc:438-462 | Decoding what was encoded gives the words back |
| ProtoRoundTrip.RoundTrip | ad/AdPlayPolicy.pb.cc:594-1062 | Parsing the serialization of a message gives an equal message exactly if all its strings are UTF-8 |
| ProtoRoundTrip.ConcatenationIsMerge | ad/AdPlayPolicy.pb.cc:1422-1485 | Parsing one serialization after another is merging the second message into the first |
| ProtoRoundTrip.SerializeParse | ad/AdPlayPolicy.pb.cc:2668-2802 | Parsing a serialization into any message merges, exactly if its strings are UTF-8 |
| ProtoValues.MergeMonoid | ad/AdPlayPolicy.pb.cc:2919-2934 | Merging is associative and the cleared message is its identity |
| ProtoRecords.StepRecord | ad/AdPlayPolicy.pb.cc:2671-2757 | A field is read alone, and what follows is left, exactly if it does not straddle into a packed record |
| ProtoRecords.AlignedExactly | ad/AdPlayPolicy.pb.cc:2671-2757 | A list of fields is read one by one exactly if none straddles |
| ProtoRecords.ParseRecords | ad/AdPlayPolicy.pb.cc:2668-2765 | A list of fields read one by one is parsed as what they amount to one after the other |
| ProtoRecords.UnknownIgnored | ad/AdPlayPolicy.pb.cc:2746-2756 | Fields with unknown numbers or other wire types add nothing |
| ProtoMixed.UnknownFieldsIgnored | ad/AdPlayPolicy.pb.cc:2746-2756 | Unknown fields inserted anywhere do not change the result, whenever the known fields are read one by one without them; then all are read one by one |
| ProtoMixed.KeptApart | ad/AdPlayPolicy.pb.cc:2746-2756 | An unknown field between a single integer and a packed record of the same list keeps them apart: the list is right |
| ProtoMixed.MixedEncodings | ad/AdPlayPolicy.pb.cc:2730-2745 | Packed, single and mixed pieces of a list are read piece by piece exactly if no single integer comes right before a packed record while the array has room, and then give the same list |
| ProtoMisread.MixedExactly | ad/AdPlayPolicy.pb.cc:2730-2745 | If only the last piece can be misread, the list comes out right exactly if that piece does not come right after a single integer while the array has room |
| ProtoMisread.ParseGrowth | ad/AdPlayPolicy.pb.cc:2730-2745 | No input makes a list grow by as many elements as the input has varint ends |
| ProtoMixed.SeparatedIf | ad/AdPlayPolicy.pb.cc:2730-2745 | Packed only, single only, and packed before single meet the condition |
| ProtoMixed.LengthMisread | include/protobuf-3.2.0/include/google/protobuf/wire_format_lite_inl.h:230-247 | Otherwise the parser goes on as if the length of the packed record were one more integer |
| ProtoSchemas.MixedMisread | ad/AdPlayPolicy.pb.cc:2736-2740 | Six bytes for which the mixed encoding is parsed, with success, to another list and another field |
| ProtoSchemas.MisreadUnnoticed | ad/AdPlayPolicy.pb.cc:2736-2740 | Bytes that are misread and still come out as the right list, so the condition on how pieces are read is not one on the list that results |
| ProtoSchemas.UnknownBetween | ad/AdPlayPolicy.pb.cc:2736-2756 | Eight bytes, the six that are misread with an unknown field in between, that are parsed to the right list: here the unknown field changes the result |
| ProtoSchemas.NotTextRefused | ad/AdPlayPolicy.pb.cc:3186-3198 | A string that is not UTF-8 is written, and the parser refuses what was written |
| ProtoSchemas.Tags | ad/AdPlayPolicy.pb.cc:604-880 | The tags of all six classes are the constants of the generated code |
| ProtoSchemas.AllClasses | ad/AdPlayPolicy.pb.cc:2230-3340 | All six classes meet what the theorems and the objects ask of a class |
| ProtoClasses.EnvelopeWritten | ad/Message.pb.cc:309-396 | The bytes of an envelope for every 64-bit id, two texts, content of any bytes and 32-bit code, field by field with the tags as numbers |
| ProtoClasses.EnvelopeBack | ad/Message.pb.cc:211-307 | An envelope of any values, its id over all 64 bits and its content any bytes, parses back exactly if its two texts are UTF-8 |
| ProtoClasses.AdWritten | ad/AdPlayPolicy.pb.cc:907-1062 | The bytes of an ad, for all values of its twenty fields |
| ProtoClasses.AdBack | ad/AdPlayPolicy.pb.cc:594-905 | An ad parses back exactly if its texts are UTF-8, whatever the bytes of field 7 |
| ProtoClasses.ResultBack | ad/AdPlayPolicy.pb.cc:268-310 | A list of ads parses back exactly if all the texts in them are UTF-8 |
| ProtoClasses.PlayTimeBack | ad/AdPlayPolicy.pb.cc:2279-2338 | A span of time parses back exactly if both texts are UTF-8 |
| ProtoClasses.AdPlayBack | ad/AdPlayPolicy.pb.cc:2668-2765 | Two numbers, a truth value, spans of time and a list of numbers parse back exactly if the texts are UTF-8 |
| ProtoClasses.AdPlayPolicyBack | ad/AdPlayPolicy.pb.cc:3162-3247 | A policy parses back exactly if its texts, and those of the plays in it, are UTF-8 |
| ProtoRecords.ValueRecord | ad/AdPlayPolicy.pb.cc:2730-2745 | The same for the value of one field |
| ProtoRoundTrip.MessageBack | ad/AdPlayPolicy.pb.cc:3162-3284 | At every nesting level, a sub-message parses back from its bytes |
| ProtoRoundTrip.LengthPastEnd | include/protobuf-3.2.0/include/google/protobuf/io/coded_stream.h:340-344 | A sub-message or packed record whose length goes past the end is read as if it ended there |
| ProtoRoundTrip.LengthMissing | include/protobuf-3.2.0/include/google/protobuf/io/coded_stream.h:432-433 | A sub-message whose length is missing is read as an empty one |
| ProtoValues.SingleSizeIs | ad/AdPlayPolicy.pb.cc:1284-1385 | What a field adds to the size is the number of bytes written for it, nothing for a default value |
| ProtoValues.PackedRecordSize | ad/AdPlayPolicy.pb.cc:2863-2877 | The size of a packed field with its tag and length |
| ProtoObjects.SerializeBothWays | ad/AdPlayPolicy.pb.cc:907-1405 | Once a message is measured, the two serializers write the same bytes, exactly as many as its size |
| ProtoObjects.MessageObject.ByteSizeLong | ad/AdPlayPolicy.pb.cc:2848-2902 | Returns the number of bytes of the serialization, and leaves the sizes of packed fields and sub-messages remembered at every nesting level |
| ProtoObjects.MessageObject.SizePacked | ad/AdPlayPolicy.pb.cc:2863-2877 | Measures a packed field and remembers its size |
| ProtoObjects.MessageObject.SizeEach | ad/AdPlayPolicy.pb.cc:2852-2861 | Measures the sub-messages, all of whose sizes are remembered afterwards |
| ProtoObjects.MessageObject.SerializeWithCachedSizes | ad/AdPlayPolicy.pb.cc:2767-2802 | With remembered sizes, appends exactly the serialization to the stream |
| ProtoObjects.MessageObject.WritePacked | ad/AdPlayPolicy.pb.cc:2792-2799 | Writes a packed field with the remembered size |
| ProtoObjects.MessageObject.WriteMessage | include/protobuf-3.2.0/include/google/protobuf/wire_format_lite_inl.h:591-599 | Writes a sub-message after its remembered size |
| ProtoObjects.MessageObject.InternalSerializeWithCachedSizesToArray | ad/AdPlayPolicy.pb.cc:2804-2846 | With remembered sizes, puts exactly the serialization into the array and nothing else |
| ProtoObjects.MessageObject.WritePackedToArray | ad/AdPlayPolicy.pb.cc:2830-2842 | Puts a packed field into the array with the remembered size |
| ProtoObjects.MessageObject.WriteMessageToArray | include/protobuf-3.2.0/include/google/protobuf/wire_format_lite_inl.h:803-812 | Puts a sub-message into the array after its remembered size |
| ProtoObjects.MessageObject.MergePartialFromCodedStream | ad/AdPlayPolicy.pb.cc:2668-2765 | The loop over the input parses as the specification does, and ends legitimately exactly when that succeeds |
| ProtoObjects.MessageObject.ReadField | ad/AdPlayPolicy.pb.cc:2677-2745 | One field is read into its place |
| ProtoObjects.MessageObject.ReadText | ad/AdPlayPolicy.pb.cc:3186-3198 | A string is stored if it is UTF-8, bytes always |
| ProtoObjects.MessageObject.ReadRepeatedPrimitive | include/protobuf-3.2.0/include/google/protobuf/wire_format_lite_inl.h:230-247 | The inner loop goes on while the array has room and the given tag follows |
| ProtoObjects.MessageObject.ReadPackedPrimitive | include/protobuf-3.2.0/include/google/protobuf/wire_format_lite_inl.h:330-344 | All integers up to the end of a packed record are added |
| ProtoObjects.MessageObject.ReadMessage | include/protobuf-3.2.0/include/google/protobuf/wire_format_lite_inl.h:505-516 | A sub-message is parsed into a new object, up to a limit that must be its legitimate end |
| ProtoObjects.MessageObject.MergeFrom | ad/AdPlayPolicy.pb.cc:2919-2934 | The object comes to hold the merged message; sub-messages are copied, not shared |
| ProtoObjects.MessageObject.CopyFrom | ad/AdPlayPolicy.pb.cc:2943-2948 | The object comes to hold an equal message, also when copied from itself |
| ProtoObjects.MessageObject.Clear | ad/AdPlayPolicy.pb.cc:2660-2666 | The object comes to hold the empty message, though arrays keep their capacity |
| ProtoValues.Reserve | include/protobuf-3.2.0/include/google/protobuf/repeated_field.h:1264-1270 | There is room for the number asked for, and capacity never shrinks |
| ProtoMixed.Capacities | include/protobuf-3.2.0/include/google/protobuf/repeated_field.h:1264-1269 | However many integers are added one by one, the array has room for 4, 8, 16 and so on, the least that holds them |
| ProtoMixed.CapacityMerged | include/protobuf-3.2.0/include/google/protobuf/repeated_field.h:1264-1269 | Adding a whole list makes room once: for just enough, for twice what there was, or for 4 |
| Utf8.Utf8Exactly | include/protobuf-3.2.0/include/google/protobuf/wire_format_lite.h:331-339 | The check holds of the encodings of sequences of scalar values, and of nothing else |
| Utf8.CharBits | include/protobuf-3.2.0/include/google/protobuf/wire_format_lite.h:331-339 | The bits of a character are those of its code point, six to a byte after the first, with the marks of section 3 of RFC 3629 |
| Wire.VarintRead | include/protobuf-3.2.0/include/google/protobuf/io/coded_stream.h:235-244 | A varint of up to 64 bits reads back, whatever follows |
| Wire.VarintSizeIs | include/protobuf-3.2.0/include/google/protobuf/io/coded_stream.h:1294-1300 | The size of a varint is the number of its bytes |
| Wire.Int32SizeIs | include/protobuf-3.2.0/include/google/protobuf/io/coded_stream.h:1302-1308 | A negative 32-bit integer takes ten bytes |
| Wire.IntsBack | include/protobuf-3.2.0/include/google/protobuf/wire_format_lite_inl.h:60-78 | Sign-extended integers come back from their 64 bits |
| Wire.DelimitedRead | include/protobuf-3.2.0/include/google/protobuf/io/coded_stream.h:246-252 | A length-delimited record reads back, whatever follows |
| Wire.SkipLocal | include/protobuf-3.2.0/include/google/protobuf/wire_format_lite.h:160-166 | What is skipped for an unknown field does not depend on what follows it |
| Wire.VarintBytes | include/protobuf-3.2.0/include/google/protobuf/io/coded_stream.h:1294-1300 | The bytes of a varint are the digits of the number to base 128, lowest first, with the top bit set on all but the last |
| Wire.AnyVarint | include/protobuf-3.2.0/include/google/protobuf/io/coded_stream.h:235-244 | Up to ten bytes are read as a varint, even if fewer would do, and count modulo 2^64; with more, or without an end, nothing is read |
| Wire.AnyTag | include/protobuf-3.2.0/include/google/protobuf/io/coded_stream.h:1122-1143 | Tags count modulo 2^32, and those of one or two bytes are expected byte by byte |
| Wire.Skipped | include/protobuf-3.2.0/include/google/protobuf/wire_format_lite.h:160-166 | What is skipped for each wire type: a varint, 8 bytes, a length and as many bytes, 4 bytes; all others fail |
| Wire.GroupSkipped | include/protobuf-3.2.0/include/google/protobuf/wire_format_lite.h:160-166 | A group is skipped field by field up to the end tag with its number |
| SymbolIndex.LookupIsScan | include/protobuf-3.2.0/include/google/protobuf/descriptor_database.h:185-234 | The last key that is at most the name, then the sub-symbol test, answers as a scan of all keys does, and there is at most one match |
| SymbolIndex.MatchIsLast | include/protobuf-3.2.0/include/google/protobuf/descriptor_database.h:203-228 | A key that is the name or lies above it is the last one that is at most the name |
| SymbolIndex.Between | include/protobuf-3.2.0/include/google/protobuf/descriptor_database.h:217-223 | What lies between a symbol and something below it is below the symbol too |
| SymbolIndex.FirstBelow | include/protobuf-3.2.0/include/google/protobuf/descriptor_database.h:185-187 | If any symbol lies below the name, the first one after it does |
| SymbolIndex.InvalidNameMissed | include/protobuf-3.2.0/include/google/protobuf/descriptor_database.h:246-248 | With a character that sorts before the period in a name, the lookup misses a symbol |
| SymbolIndex.ValidNames | include/protobuf-3.2.0/include/google/protobuf/descriptor_database.h:246-248 | A name is valid exactly if it consists of the 52 letters, ten digits, the underscore and the period |
| SymbolIndex.SubSymbols | include/protobuf-3.2.0/include/google/protobuf/descriptor_database.h:241-244 | A symbol is a sub-symbol of another exactly if it is the same, or goes on with a period |
| SymbolIndex.DescriptorIndex.FindLastLessOrEqual | include/protobuf-3.2.0/include/google/protobuf/descriptor_database.h:236-239 | Splits the keys into those at most the name and those after it |
| SymbolIndex.DescriptorIndex.FindSymbol | include/protobuf-3.2.0/include/google/protobuf/descriptor_database.h:175 | The value of the one symbol that is the name or lies above it, none if there is no such symbol |
| SymbolIndex.DescriptorIndex.AddSymbol | include/protobuf-3.2.0/include/google/protobuf/descriptor_database.h:168 | Adds the symbol exactly if its name is valid and neither above nor below nor equal to one that is there, so to an empty index exactly if it consists of letters, digits, underscores and periods; the index stays free of sub-symbols |
| UriEncoding.RoundTripExactly | include/cpp-netlib-0.9.4/boost/network/uri/encode.hpp:141-154 | Decoding the encoding gives the string back exactly if it has no negative character |
| UriEncoding.NegativeLost | include/cpp-netlib-0.9.4/boost/network/uri/encode.hpp:126-133 | The character -1 is encoded as %6F and decoded as an o |
| UriEncoding.ConcatenationRoundTrip | include/cpp-netlib-0.9.4/boost/network/uri/decode.hpp:62-85 | Decoding two encodings one after the other gives the two strings |
| UriEncoding.CanonicalExactly | include/cpp-netlib-0.9.4/boost/network/uri/encode.hpp:56-134 | Encoding the decoding gives a text back exactly if it is plain characters and complete upper-case triples of others |
| UriEncoding.EncodedCanonical | include/cpp-netlib-0.9.4/boost/network/uri/encode.hpp:56-134 | The output is unreserved characters, slashes and complete triples only |
| UriEncoding.DecodedAppend | include/cpp-netlib-0.9.4/boost/network/uri/decode.hpp:62-85 | Decoding goes through complete pieces one after the other |
| UriEncoding.SpelledDecoded | include/cpp-netlib-0.9.4/boost/network/uri/decode.hpp:24-85 | A text in which each character from 0 to 127 stands for itself or is written with its two digits, each in either case, decodes to those characters |
| UriEncoding.EncodedChars | include/cpp-netlib-0.9.4/boost/network/uri/encode.hpp:56-134 | The 67 letters, digits and signs that are passed on, and the two upper-case digits of every other character |
| UriEncoding.Encode | include/cpp-netlib-0.9.4/boost/network/uri/encode.hpp:141-154 | The loop encodes character by character |
| UriEncoding.Decode | include/cpp-netlib-0.9.4/boost/network/uri/decode.hpp:62-85 | The loop decodes item by item, and stays within the input exactly if every triple is complete |

## Left out

- The old-style map (`DeprecatedInnerMap`), arenas, allocation and destruction in the map: a node that is erased is just no longer in the table.
- `Seed()`: the seed is a parameter; `size_t` does not overflow for tables of at most 2^60 buckets, so its wrap-around is not modelled outside the hash, which is arbitrary.
- The ordered tree of a pair of buckets is a sorted sequence of nodes with `std::set`'s operations, not a balanced tree.
- Map operations after `swap`, copying and range assignment: they are loops over the operations modelled.
- MIME: the copy constructor, iterators over sub-parts, header setters and the debug dumps. Exceptions are results.
- MIME: the second alternative for extension tokens in a Content-Type can never be reached, as the first one covers it, and is not there.
- MimeObjects.BasicMime.Parse: a pair of iterators is a string, and what is left of the input after a part is not part of the result.
- MD5: `raw_digest`, `hex_digest` and console messages; streams and files are read as a given list of pieces; that the table of 64 constants comes from a sine function.
- Md5.MD5.Update: asks that the last index of its loop be below 2^32 - 63, as the loop test wraps around otherwise and the loop goes on past the end of the input (`Md5Spec.LoopTest`); that can only happen with a buffer that is not empty and a length of 2^32 - 63 or more.
- Protocol buffers: coded_stream.cc, wire_format_lite.cc and structurally_valid.cc are not part of this model; the coded streams, skipping and the UTF-8 check follow the Protocol Buffers Encoding specification and section 4 of RFC 3629, over one flat array. A field with number 0, which the specification does not allow, is skipped like any unknown one: `ProtoSchemas.MisreadUnnoticed` rests on that. After a length that cannot be read, coded_stream.h does not say where the stream is: here, at the end if the input ends in the length, else where it was; nor what a negative limit does: here, nothing. The recursion limit (100 by default) is not modelled. The classes nest three deep and cannot reach it; unknown groups, which `Wire.SkipGroup` skips at any depth, can, and the program then fails.
- Protocol buffers: arenas, reflection, descriptors, accessors, `Swap` and `New`. A cleared sub-message object is not kept for reuse, which would only matter for the capacity of its arrays. After a failed parse nothing is said of the object, and the sub-message that failed is not attached.
- ProtoMixed.MixedEncodings: the condition is sufficient only for the list that results; it is exact where the last piece alone can be misread (ProtoMisread.MixedExactly), and not in general (ProtoSchemas.MisreadUnnoticed).
- ProtoObjects.MessageObject.ByteSizeLong: sizes are not narrowed to `int`; the round trips ask for serializations of less than 2^31 bytes, beyond which the library's sizes do not fit.
- ProtoObjects.MessageObject.MergeFrom: asks that the two objects share no sub-message, which the library's ownership of sub-messages gives.
- DescriptorIndex: files and extensions. descriptor_database.cc is not part of this model; the functions follow the header, and the map is a sorted sequence of keys with their values.
- UriEncoding.Decode: where the program reads past the end of the input, which is undefined there, the result is none.
- The networking code, thread pools, logging, graphics and the business logic around the messages.
