# XML-RPC value codec of org.panteleyev.xmlrpc, in Dafny

This project models the value codec of the Java XML-RPC client `org.panteleyev.xmlrpc` and proves
what its code and its unit tests promise. It has four parts:

- **The encoder, `XMLRPCParameters`** (`parameters.dfy`, module `Parameters`).
  - `XmlRpcParameters` is a class whose `paramString` field is the `StringBuilder` buffer.
    `AppendParameter` changes that field in place.
  - `AppendValue` is the type dispatch. Map and List are handled by the mutually recursive
    `AppendStructMembers`, `AppendMember` and `AppendArrayItems`. The per-type formatters are
    pure functions.
  - The encoder's input is `Native` (`values.dfy`): a Java object as the dispatch sees it.
    A Map is an ordered sequence of entries whose keys are String keys or other keys.
    `NOther` is any other type, including null.
- **The decoder, `XMLRPCResult`** (`response.dfy`, module `Response`).
  - `XmlRpcResult` is a class whose `values` field is the value list.
  - `Parse`, `ParseValue`, `ParseStruct` and `ParseArray` are methods with the loops of the
    Java code. Each is proved equal to a specification function: `ParseResponse`, `DecodeValue`,
    `DecodeStructFrom` and `DecodeArray`. The properties are then proved about those functions.
  - The fault branch of `parse` and its inner loop over one `param`'s children are written as
    two helper methods, `ParseFault` and `ParseParam`. The `break` of the inner loop is a
    `return` from `ParseParam`. The order in which nodes are visited and values are added is
    unchanged.
  - The input is the parsed document as an abstract tree (`xml.dfy`): elements with ordered
    children, and text nodes. It comes with `getNodeName`, `getChildNodes`, `getTextContent`
    and `getElementsByTagName`.
  - The decoder's result is `Value`: a struct is a `map<string, Value>`, and an array is a
    sequence of `Option<Value>`, because decoded arrays keep null entries.
  - Errors are a `Result`/`Option` of `Error` (`exceptions.dfy`), not thrown exceptions. On an
    error, `values` keeps what was added before it, as in the Java code.
- **The envelope, `XMLRPCMethod`** (`method.dfy`): the name check of the record constructor
  and the `methodCall` text.
- **The exception, `XMLRPCException`** (`exceptions.dfy`): its three constructors and its fault
  code.

Supporting modules:

- `seqs.dfy`: a fact about sequences that several modules share.
- `base64.dfy`: the base64 encoding of section 4 of RFC 4648, with padding.
- `decimal.dfy`: `Integer.toString` and `Integer.parseInt`.
- `datetime.dfy`: the `yyyyMMdd'T'HH:mm:ss` layout on calendar fields.
- `roundtrip.dfy`: states how the encoder and the decoder meet. The markup written for any
  supported object is the serialisation of a tree, and the decoder reads that tree back as the
  value the object stands for.

## Model

Source paths are relative to the repository root.

| member | source | states |
|---|---|---|
| Exceptions.XmlRpcException.GetFaultCode | src/main/java/org/panteleyev/xmlrpc/XMLRPCException.java:33-35 | the code returned is the one fixed when the exception was made; a datatype field cannot change, so every call returns the same code |
| Exceptions.WithMessage | src/main/java/org/panteleyev/xmlrpc/XMLRPCException.java:13-16 | the message-only constructor gives fault code 0, keeps the message, has no cause |
| Exceptions.WithFault | src/main/java/org/panteleyev/xmlrpc/XMLRPCException.java:18-21 | the (code, message) constructor: getFaultCode returns the given code and the message is the given one |
| Exceptions.WithCause | src/main/java/org/panteleyev/xmlrpc/XMLRPCException.java:23-26 | the (message, cause) constructor gives fault code 0 and keeps the cause |
| Parameters.XmlRpcParameters.constructor | src/main/java/org/panteleyev/xmlrpc/XMLRPCParameters.java:19 | a new object's buffer is empty |
| Parameters.XmlRpcParameters.GetParametersString | src/main/java/org/panteleyev/xmlrpc/XMLRPCParameters.java:26-28 | returns the buffer's text, unchanged |
| Parameters.XmlRpcParameters.AppendParameter | src/main/java/org/panteleyev/xmlrpc/XMLRPCParameters.java:30-33 | the old buffer stays as a prefix. On success, exactly `<param><value>` + encoding + `</value></param>` is appended and the same object is returned. On an unsupported object, the error is raised with `<param><value>` already appended |
| Parameters.AppendValueFails | src/main/java/org/panteleyev/xmlrpc/XMLRPCParameters.java:35-69 | encoding fails exactly when some object, at any depth (Map values under String keys, List elements), is none of the eight types; the error is always the unsupported-type one |
| Parameters.AppendStructMembersFails | src/main/java/org/panteleyev/xmlrpc/XMLRPCParameters.java:89-97 | a Map fails exactly when the value of some String-keyed entry is unsupported; values under other keys are never looked at |
| Parameters.AppendMemberFails | src/main/java/org/panteleyev/xmlrpc/XMLRPCParameters.java:89-97 | one member fails exactly when its value is unsupported |
| Parameters.AppendArrayItemsFails | src/main/java/org/panteleyev/xmlrpc/XMLRPCParameters.java:99-105 | a List fails exactly when one of its elements is unsupported |
| Parameters.StringKeyed | src/main/java/org/panteleyev/xmlrpc/XMLRPCParameters.java:90-91 | an entry is kept exactly when it is an entry of the Map with a String key, and no more entries come out than go in |
| Parameters.StringKeyedConcat | src/main/java/org/panteleyev/xmlrpc/XMLRPCParameters.java:90-91 | the filter keeps iteration order: filtering a + b gives the kept entries of a, then those of b |
| Parameters.StructKeyFilter | src/main/java/org/panteleyev/xmlrpc/XMLRPCParameters.java:89-97 | entries whose key is not a String contribute nothing: the Map's text is that of its String-keyed entries |
| Parameters.StructMembersConcat | src/main/java/org/panteleyev/xmlrpc/XMLRPCParameters.java:89-97 | members are written in iteration order: the text for a + b is the text for a followed by the text for b |
| Parameters.ArrayItemsConcat | src/main/java/org/panteleyev/xmlrpc/XMLRPCParameters.java:99-105 | elements are written in list order: the text for a + b is the text for a followed by the text for b |
| Parameters.StringPayload | src/main/java/org/panteleyev/xmlrpc/XMLRPCParameters.java:71-75 | the escaped payload of a String has no raw '<'; decoding `&amp;` and `&lt;` gives the String back; the payload equals the String exactly when the String has neither '&' nor '<' |
| Parameters.PlainStringValue | src/main/java/org/panteleyev/xmlrpc/XMLRPCParameters.java:71-75 | a String without '&' and '<' is written between string tags as it is (the "Hello World" case) |
| Parameters.BooleanExamples | src/main/java/org/panteleyev/xmlrpc/XMLRPCParameters.java:77-79 | true is `<boolean>1</boolean>` and false is `<boolean>0</boolean>` |
| Parameters.IntegerExamples | src/test/java/org/panteleyev/xmlrpc/MethodScalarParametersTest.java:38-41 | 123 is `<int>123</int>` and -123 is `<int>-123</int>` |
| Parameters.DoubleExample | src/test/java/org/panteleyev/xmlrpc/MethodScalarParametersTest.java:46-47 | the Double text -123.45 is `<double>-123.45</double>` |
| Parameters.DataExample | src/test/java/org/panteleyev/xmlrpc/MethodScalarParametersTest.java:48-50 | the bytes 14 fb 9c 03 d9 7e are `<base64>FPucA9l+</base64>` |
| Parameters.DateExample | src/test/java/org/panteleyev/xmlrpc/MethodScalarParametersTest.java:53-54 | 5 October 1972 23:03:54 is `<dateTime.iso8601>19721005T23:03:54</dateTime.iso8601>` |
| Parameters.EmptyContainers | src/main/java/org/panteleyev/xmlrpc/XMLRPCParameters.java:89-105 | an empty List is `<array><data></data></array>`; an empty Map is `<struct></struct>` |
| Parameters.StructExample | src/test/java/org/panteleyev/xmlrpc/MethodStructParametersTest.java:24-26 | the Map {"2" -> true} gives the one member `<member><name>2</name><value><boolean>1</boolean></value></member>`; a Map whose only key is not a String gives `<struct></struct>` |
| Parameters.ArrayExample | src/test/java/org/panteleyev/xmlrpc/MethodArrayParameterTest.java:26-28 | the List [false, true] gives two value items, in order |
| Xml.ElementsByTagName | src/main/java/org/panteleyev/xmlrpc/XMLRPCResult.java:67 | every node found is an element with the requested tag |
| Xml.ElementsInEmpty | src/main/java/org/panteleyev/xmlrpc/XMLRPCResult.java:67-68 | the search finds nothing exactly when no node is, or has below it, an element with the tag |
| Xml.ElementsInFirst | src/main/java/org/panteleyev/xmlrpc/XMLRPCResult.java:69 | a child with the tag is the first match when no earlier child has a match |
| Xml.ElementsInConcat | src/main/java/org/panteleyev/xmlrpc/XMLRPCResult.java:81 | the search keeps document order: the matches among a + b are those among a, then those among b |
| Xml.ElementsInAt | src/main/java/org/panteleyev/xmlrpc/XMLRPCResult.java:81 | the matches among the nodes are those before the k-th node, the k-th node itself when it has the tag, the matches below it, then those after it |
| Xml.ElementsInComplete | src/main/java/org/panteleyev/xmlrpc/XMLRPCResult.java:67 | nothing is missed: a node with the tag, and every match below any node, is in the result |
| Xml.Escape | src/main/java/org/panteleyev/xmlrpc/XMLRPCParameters.java:71-75 | escaped text contains no '<' |
| Xml.EscapeTextIsEscape | src/main/java/org/panteleyev/xmlrpc/XMLRPCParameters.java:72-74 | the two replaceAll passes ('&' first, then '<') equal escaping each character on its own: the second pass never touches what the first wrote |
| Xml.UnescapeEscape | src/main/java/org/panteleyev/xmlrpc/XMLRPCParameters.java:71-75 | decoding the two entities gives back exactly the escaped text |
| Xml.EscapeUnchanged | src/main/java/org/panteleyev/xmlrpc/XMLRPCParameters.java:71-75 | escaping leaves a text unchanged exactly when it has neither '&' nor '<' |
| Decimal.NatToString | src/main/java/org/panteleyev/xmlrpc/XMLRPCParameters.java:81-83 | the decimal text is non-empty and all digits, denotes the number, and has no leading zero except "0" itself |
| Decimal.ParseIntToString | src/main/java/org/panteleyev/xmlrpc/XMLRPCResult.java:112-114 | parseInt reads back what Integer.toString wrote, for every 32-bit int |
| Decimal.ParseIntRefuses | src/main/java/org/panteleyev/xmlrpc/XMLRPCResult.java:112-114 | parseInt refuses the empty text, and any text which, after one optional sign, is empty or holds a non-digit (the NumberFormatException path) |
| Decimal.ParseIntRefusals | src/main/java/org/panteleyev/xmlrpc/XMLRPCResult.java:112-114 | the empty text, a lone sign, surrounding white space, a letter, a double sign, and 2147483648 and -2147483649 are refused |
| Decimal.ParseIntSignDigits | src/main/java/org/panteleyev/xmlrpc/XMLRPCResult.java:112-114 | parseInt accepts an optional '-' or '+' then digits, and fails exactly when the value is outside the 32-bit range |
| Decimal.LeadingZeros | src/main/java/org/panteleyev/xmlrpc/XMLRPCResult.java:112-114 | leading zeros do not change the number read |
| Decimal.Padded | src/main/java/org/panteleyev/xmlrpc/XMLRPCParameters.java:107-111 | a zero-padded field is all digits, at least the requested width, and denotes the number |
| Decimal.IntToStringExamples | src/test/java/org/panteleyev/xmlrpc/MethodScalarParametersTest.java:38-41 | 123, -123 and 0 are written "123", "-123" and "0" |
| Base64.Encode | src/main/java/org/panteleyev/xmlrpc/XMLRPCParameters.java:113-115 | the padded encoding has 4 characters per started group of 3 bytes |
| Base64.EncodeAlphabet | src/main/java/org/panteleyev/xmlrpc/XMLRPCParameters.java:113-115 | every character of an encoding is in the RFC 4648 alphabet or is '=' |
| Base64.DecodeEncode | src/main/java/org/panteleyev/xmlrpc/XMLRPCResult.java:122-123 | the decoder gives back every byte sequence the encoder wrote |
| Base64.EncodeExample | src/test/java/org/panteleyev/xmlrpc/MethodScalarParametersTest.java:48-50 | 14 fb 9c 03 d9 7e encodes to "FPucA9l+", which decodes back to those bytes |
| DateTime.ParseFormat | src/main/java/org/panteleyev/xmlrpc/XMLRPCResult.java:131-134 | parsing the layout reads back every moment whose fields fit it, as formatted by the encoder |
| DateTime.FormatInjective | src/main/java/org/panteleyev/xmlrpc/XMLRPCParameters.java:107-111 | distinct moments that fit the layout are written as distinct texts |
| DateTime.FormatExampleMidnight | src/test/java/org/panteleyev/xmlrpc/MethodScalarParametersTest.java:51-52 | 5 October 1972 at midnight is "19721005T00:00:00" |
| DateTime.FormatExampleEvening | src/test/java/org/panteleyev/xmlrpc/MethodScalarParametersTest.java:53-54 | 5 October 1972 at 23:03:54 is "19721005T23:03:54" |
| Response.FirstNamed | src/main/java/org/panteleyev/xmlrpc/XMLRPCResult.java:85-93 | the node the inner loop of parse stops at is a child named `value` |
| Response.FirstRecognisedWins | src/main/java/org/panteleyev/xmlrpc/XMLRPCResult.java:99-136 | parseValue returns the decoding of the first child with a recognised name; text nodes and unknown tags before it are skipped |
| Response.NoneRecognised | src/main/java/org/panteleyev/xmlrpc/XMLRPCResult.java:137-139 | without a recognised child, parseValue gives no value (null) |
| Response.ValueSkips | src/main/java/org/panteleyev/xmlrpc/XMLRPCResult.java:101-137 | a child with an unrecognised name changes nothing, wherever it stands |
| Response.IntAliases | src/main/java/org/panteleyev/xmlrpc/XMLRPCResult.java:112-114 | `int` and `i4` decode the same way, and both read back Integer.toString of any int |
| Response.BooleanText | src/main/java/org/panteleyev/xmlrpc/XMLRPCResult.java:119-120 | a boolean always decodes, and is true exactly when its text is "1" |
| Response.StructIsMapOf | src/main/java/org/panteleyev/xmlrpc/XMLRPCResult.java:142-170 | a struct is the map built by putting its kept members in document order; it fails with the first member that fails |
| Response.MapOfKeys | src/main/java/org/panteleyev/xmlrpc/XMLRPCResult.java:163-165 | the struct's keys are exactly the names of the kept members |
| Response.MapOfLastWins | src/main/java/org/panteleyev/xmlrpc/XMLRPCResult.java:163-165 | across members with the same name, the value of the last one is kept |
| Response.MapOfUntouched | src/main/java/org/panteleyev/xmlrpc/XMLRPCResult.java:163-165 | a name no member mentions is absent from the struct, or keeps its earlier value |
| Response.MapOfSwap | src/main/java/org/panteleyev/xmlrpc/XMLRPCResult.java:146-168 | swapping two neighbouring members with different names does not change the struct |
| Response.MapOfConcat | src/main/java/org/panteleyev/xmlrpc/XMLRPCResult.java:146-168 | the struct of a + b is the struct of a extended by the members of b |
| Response.StructSkips | src/main/java/org/panteleyev/xmlrpc/XMLRPCResult.java:146-149 | a struct child that is not a `member` changes nothing |
| Response.MemberLastWins | src/main/java/org/panteleyev/xmlrpc/XMLRPCResult.java:152-162 | within a member, the last `name` child gives the name and the last `value` child gives the value |
| Response.MemberOne | src/main/java/org/panteleyev/xmlrpc/XMLRPCResult.java:155-161 | a `name` child sets the name to its text, a `value` child sets the value to its decoding, any other child keeps both |
| Response.MemberSplit | src/main/java/org/panteleyev/xmlrpc/XMLRPCResult.java:154-162 | the member scan goes child by child: scanning init + [last] is scanning init, then last |
| Response.MemberSkips | src/main/java/org/panteleyev/xmlrpc/XMLRPCResult.java:154-161 | a member child other than `name` and `value` changes nothing |
| Response.ArrayFails | src/main/java/org/panteleyev/xmlrpc/XMLRPCResult.java:172-187 | an array decodes exactly when every `value` child of its first child node decodes |
| Response.ArrayValues | src/main/java/org/panteleyev/xmlrpc/XMLRPCResult.java:177-183 | a decoded array has one entry per `value` child, in order, each its decoding, null entries included |
| Response.ArraySkips | src/main/java/org/panteleyev/xmlrpc/XMLRPCResult.java:178-182 | a node other than `value` below the array changes nothing |
| Response.EmptyArray | src/main/java/org/panteleyev/xmlrpc/XMLRPCResult.java:176 | an array element without children is the empty list |
| Response.PrettyPrintedArray | src/main/java/org/panteleyev/xmlrpc/XMLRPCResult.java:177 | when white space comes before `data`, the text node is the first child and the array decodes empty |
| Response.ParamsAllDecode | src/main/java/org/panteleyev/xmlrpc/XMLRPCResult.java:81-95 | when every param decodes, parse adds exactly the present values, in document order, and ends normally |
| Response.ParamsFirstFailure | src/main/java/org/panteleyev/xmlrpc/XMLRPCResult.java:81-95 | when the k-th param is the first to fail, parse ends with its error, keeping the values added before it |
| Response.ParamsCount | src/main/java/org/panteleyev/xmlrpc/XMLRPCResult.java:81-95 | parse keeps the values already there, and adds at most one value per param |
| Response.FaultIgnoresParams | src/main/java/org/panteleyev/xmlrpc/XMLRPCResult.java:67-80 | with any fault element, no params are read. Parse ends without an error exactly when the first fault has no `value` below it |
| Response.FaultDecodes | src/main/java/org/panteleyev/xmlrpc/XMLRPCResult.java:69-78 | a fault's decoded value becomes the error, and nothing is added |
| Response.FaultStruct | src/main/java/org/panteleyev/xmlrpc/XMLRPCResult.java:72-75 | a fault struct with an int faultCode and a string faultString raises an exception with that code and message |
| Response.FaultNotStruct | src/main/java/org/panteleyev/xmlrpc/XMLRPCResult.java:76-78 | a fault value that is not a struct raises "Undefined fault response" with code 0 |
| Response.FaultWithoutCode | src/main/java/org/panteleyev/xmlrpc/XMLRPCResult.java:73 | a fault struct without an int faultCode fails (null unboxing or a failed cast) |
| Response.FaultExample | src/test/java/org/panteleyev/xmlrpc/FaultResponseTest.java:37-45 | the fault response with faultCode 4 raises code 4 and "Too many parameters." |
| Response.StructExample | src/test/java/org/panteleyev/xmlrpc/StructResultTest.java:40-51 | the struct of lowerBound 18 and upperBound 139 (both i4) decodes to that map |
| Response.XmlRpcResult.constructor | src/main/java/org/panteleyev/xmlrpc/XMLRPCResult.java:38-43 | a new result has an empty value list |
| Response.XmlRpcResult.Parse | src/main/java/org/panteleyev/xmlrpc/XMLRPCResult.java:63-97 | the list becomes the old list followed by the values of ParseResponse, and the error is ParseResponse's |
| Response.XmlRpcResult.ParseFault | src/main/java/org/panteleyev/xmlrpc/XMLRPCResult.java:69-79 | the error of the fault branch is that of FaultOutcome |
| Response.XmlRpcResult.ParseParam | src/main/java/org/panteleyev/xmlrpc/XMLRPCResult.java:84-94 | one param contributes the decoding of its first `value` child, or nothing without one |
| Response.XmlRpcResult.ParseValue | src/main/java/org/panteleyev/xmlrpc/XMLRPCResult.java:99-140 | the scan with an early return equals DecodeValue |
| Response.XmlRpcResult.ParseStruct | src/main/java/org/panteleyev/xmlrpc/XMLRPCResult.java:142-170 | the map filled member by member equals DecodeStructFrom |
| Response.XmlRpcResult.ParseArray | src/main/java/org/panteleyev/xmlrpc/XMLRPCResult.java:172-187 | the list filled item by item equals DecodeArray |
| Response.XmlRpcResult.GetValueCount | src/main/java/org/panteleyev/xmlrpc/XMLRPCResult.java:194-196 | the count is the length of the value list |
| Response.XmlRpcResult.At | src/main/java/org/panteleyev/xmlrpc/XMLRPCResult.java:205-212 | succeeds exactly for a position inside the list, with the value there; otherwise the index error |
| Response.XmlRpcResult.GetStringValue | src/main/java/org/panteleyev/xmlrpc/XMLRPCResult.java:205-212 | succeeds exactly when the position holds a String, and returns it; otherwise IllegalState, or the index error outside the list |
| Response.XmlRpcResult.GetIntegerValue | src/main/java/org/panteleyev/xmlrpc/XMLRPCResult.java:221-228 | the same for an Integer |
| Response.XmlRpcResult.GetBooleanValue | src/main/java/org/panteleyev/xmlrpc/XMLRPCResult.java:237-244 | the same for a Boolean |
| Response.XmlRpcResult.GetDoubleValue | src/main/java/org/panteleyev/xmlrpc/XMLRPCResult.java:253-260 | the same for a Double |
| Response.XmlRpcResult.GetDateValue | src/main/java/org/panteleyev/xmlrpc/XMLRPCResult.java:269-276 | the same for a Date |
| Response.XmlRpcResult.GetBinaryValue | src/main/java/org/panteleyev/xmlrpc/XMLRPCResult.java:285-292 | the same for a byte array |
| Response.XmlRpcResult.GetArrayValue | src/main/java/org/panteleyev/xmlrpc/XMLRPCResult.java:301-308 | the same for a List |
| Response.XmlRpcResult.GetStructValue | src/main/java/org/panteleyev/xmlrpc/XMLRPCResult.java:317-324 | the same for a Map |
| Response.XmlRpcResult.OneGetterSucceeds | src/main/java/org/panteleyev/xmlrpc/XMLRPCResult.java:205-324 | at every position of the list exactly one typed getter succeeds |
| Method.NewMethod | src/main/java/org/panteleyev/xmlrpc/XMLRPCMethod.java:12-16 | construction succeeds exactly for a non-null, non-empty name, and keeps it; otherwise IllegalArgumentException "Method name cannot be empty" |
| Method.EmptyNameRefused | src/main/java/org/panteleyev/xmlrpc/XMLRPCMethod.java:13-14 | an empty name and a missing name are both refused |
| Method.NameVerbatim | src/main/java/org/panteleyev/xmlrpc/XMLRPCMethod.java:21 | any non-empty name is accepted and appears in the envelope character for character, '<' and '&' included |
| Method.XmlRpcMethod.GetMethodString | src/main/java/org/panteleyev/xmlrpc/XMLRPCMethod.java:18-25 | is the envelope of the method's name and the parameters' buffer |
| Method.MethodString | src/main/java/org/panteleyev/xmlrpc/XMLRPCMethod.java:18-25 | the envelope is, slice by slice: the prolog and `<methodCall><methodName>`, the name, `</methodName><params>`, the parameters' text unchanged, `</params></methodCall>` |
| Method.MethodStringInjective | src/main/java/org/panteleyev/xmlrpc/XMLRPCMethod.java:21-23 | for names without '<', equal envelopes come from equal names and equal parameter texts |
| RoundTrip.TreeText | src/main/java/org/panteleyev/xmlrpc/XMLRPCParameters.java:35-69 | for a supported object, the encoder's markup is exactly the serialisation of the object's tree |
| RoundTrip.MembersText | src/main/java/org/panteleyev/xmlrpc/XMLRPCParameters.java:89-97 | a Map's member text is the serialisation of its member elements |
| RoundTrip.ItemsText | src/main/java/org/panteleyev/xmlrpc/XMLRPCParameters.java:99-105 | a List's item text is the serialisation of its value elements |
| RoundTrip.ValueRoundTrip | src/main/java/org/panteleyev/xmlrpc/XMLRPCResult.java:99-140 | the value element around an object's tree decodes to the value the object stands for |
| RoundTrip.MembersRoundTrip | src/main/java/org/panteleyev/xmlrpc/XMLRPCResult.java:142-170 | the member elements the encoder writes decode to the String-keyed entries, in order |
| RoundTrip.ItemsRoundTrip | src/main/java/org/panteleyev/xmlrpc/XMLRPCResult.java:172-187 | the value elements the encoder writes for a List decode to its elements, in order |
| RoundTrip.DateReads | src/main/java/org/panteleyev/xmlrpc/XMLRPCResult.java:131-134 | a date element holding the formatted text of a moment that fits the layout decodes to that moment |
| RoundTrip.BytesReads | src/main/java/org/panteleyev/xmlrpc/XMLRPCResult.java:122-123 | a base64 element holding the encoding of some bytes decodes to those bytes |
| RoundTrip.ParamRoundTrip | src/main/java/org/panteleyev/xmlrpc/XMLRPCParameters.java:30-33 | the text appendParameter appends for a supported object serialises a param tree, and the decoder's param step reads that tree back as the object's value |

## Left out

- HTTP transport (`XMLRPCService`): the POST, its headers, the response-code check and the
  connection lifecycle are network I/O.
- XML parsing: the decoder takes an already-parsed tree. The DocumentBuilder and the
  wrapping of parser errors into "XML parser error" are not modelled. Nor is entity
  decoding beyond `&amp;` and `&lt;`: that is the parser's job.
- Comments and processing instructions have no node of their own in the tree. They are not
  ignored by the codec: such a node counts as a child, with no children of its own and a name
  no case matches. So a comment as the first child of `array` makes the array decode empty,
  just like white space. Both behave exactly like an empty text node, `Text("")`, which the
  tree can hold: `getTextContent` of an element leaves the comment's text out.
  `Response.PrettyPrintedArray` covers that case for any text, the empty one included.
  Attributes are not child nodes and play no part in the codec.
- Double: `Double.toString` and `Double.parseDouble` are floating point. A Double is its
  text, unchanged both ways, and parse errors for doubles are not modelled.
- Dates: time zones and `SimpleDateFormat` leniency are not modelled. A Date is its calendar
  fields, already in the connection's zone; the `tz` field and parameters are dropped. Field
  ranges (month 1-12 etc.) are not checked.
- DateTime.Parse: accepts only text of exactly seventeen characters in the fixed-width layout,
  so it is stricter than Java. `DateFormat.parse(String)` ignores text after the layout: Java
  reads "19980717T14:08:55Z", and the model refuses it.
- RoundTrip.DateReads and RoundTrip.ValueRoundTrip: a `java.util.Date` also has milliseconds.
  The layout drops them, so in Java a Date with non-zero milliseconds does not come back equal.
  The round trip holds in the model only because a Moment has no millisecond field.
- `LocalDateTime` and `LocalDate` parameters: one unit test passes them, but the dispatch
  rejects them, and the model follows the dispatch (they are `NOther`).
- Java exception subtypes from casts and null unboxing on the fault path: they are one error,
  `BadFaultPayload`.
- The duplicate `parseValue` call in the params loop: decoding is pure here, so it is done
  once.
- `getValues` and the other accessors outside the codec, package-info and module-info are
  not modelled.
- The pretty-printed arrays of `ArrayResultTest`: the test expects four values, but the code
  decodes such an array as empty. The model follows the code (`Response.PrettyPrintedArray`).
- The return value one test helper takes from `parse` is not modelled: `parse` returns no
  value in the code.
- Decimal.ParseIntSignDigits: reads only the ASCII digits '0'-'9'. `Integer.parseInt` reads
  digits with `Character.digit`, so Java also accepts other Unicode decimal digits: it reads
  `<int>٣</int>` (ARABIC-INDIC DIGIT THREE) as 3, where the model gives a number-format error.
- Method.MethodStringInjective: does not state that the parameters' text occurs exactly once
  in the envelope. It states where that text lies (Method.MethodString), and that the envelope
  determines name and text when the name has no '<'. A name or a parameter text may itself
  contain the same characters, so a literal "occurs once" is not true of arbitrary input.
- RoundTrip.ParamRoundTrip: limited to objects whose Map keys and Double texts have neither
  '&' nor '<', and whose dates fit the layout. The encoder writes those texts unescaped, so
  with such characters its markup is not the serialisation of any tree.
- Response.XmlRpcResult.ParseStruct and Response.XmlRpcResult.ParseArray: require an element
  node, which every caller passes (the `struct` or `array` child that was matched by name).
