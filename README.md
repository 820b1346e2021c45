# Namechanger Greeter handlers in Dafny

This project models the two request handlers of the namechanger gRPC example
server, `GreeterImpl.reverse` and `GreeterImpl.charReplace` in
`NamechangerServer.java`, and proves what their replies contain.

- `reverse` builds the reversal of the request's `name`. It walks an index down
  from the last position to 0 and appends one `char` per step to an
  accumulator. It replies with `"the name reversed is: "` followed by that
  accumulator. `Namechanger.Reverse` keeps this loop. Its invariant says that the
  accumulator is the reversal of the suffix of `name` already visited. Its
  postcondition ties the reply to the specification function `JavaText.Rev`.
- `charReplace` replies with `"the character changed to *: "` followed by
  `name.replace('i', chara.charAt(0))`. `Namechanger.CharReplace` is a function
  returning an `Outcome`. It either completes with the reply or throws
  `StringIndexOutOfBounds(0, 0)` when `chara` is empty, as `charAt(0)` does.

Java strings are sequences of UTF-16 code units. `JavaText.CodeUnit` is the
16-bit unsigned range (surrogates included) and `JavaText.JavaString` a
sequence of them. Reversal therefore works unit by unit. A surrogate pair is
split and swapped, exactly as the source's `charAt` loop does it. The two reply
prefixes are ASCII literals turned into code units by `JavaText.FromAscii`.

Module layout:
- `java_text.dfy`, module `JavaText`: code units, the reversal specification
  `Rev` and its lemmas, and `Replace`, the model of `String.replace(char, char)`.
- `namechanger.dfy`, module `Namechanger`: the request, reply and outcome
  datatypes, the two handlers, and lemmas about their replies.

## Model

| member | source | states |
|---|---|---|
| `Namechanger.Reverse` | examples/src/main/java/io/grpc/examples/namechanger/NamechangerServer.java:79-89 | the reply is exactly the prefix `"the name reversed is: "` followed by `Rev(name)`; it is `|prefix| + |name|` long; each position after the prefix holds the mirrored unit of `name`; an empty name gives exactly the prefix |
| `JavaText.RevLength` | examples/src/main/java/io/grpc/examples/namechanger/NamechangerServer.java:81-85 | the back-to-front copy is as long as the input, so on loop exit `|reversed| == |name|` |
| `JavaText.RevAt` | examples/src/main/java/io/grpc/examples/namechanger/NamechangerServer.java:82-85 | for every `k < |s|`, element `k` of the reversal is `s[|s|-1-k]` |
| `JavaText.RevPointwise` | examples/src/main/java/io/grpc/examples/namechanger/NamechangerServer.java:82-85 | any sequence of the input's length whose element `k` is `s[|s|-1-k]` equals `Rev(s)`, so the pointwise description determines the reversal |
| `JavaText.RevInvolution` | examples/src/main/java/io/grpc/examples/namechanger/NamechangerServer.java:82-85 | reversing the reversed string gives back the original |
| `Namechanger.ReverseReplyRecoversName` | examples/src/main/java/io/grpc/examples/namechanger/NamechangerServer.java:86 | the reverse reply starts with its prefix, and reversing the rest yields the request's name |
| `JavaText.Replace` | examples/src/main/java/io/grpc/examples/namechanger/NamechangerServer.java:94 | `String.replace(char, char)`: same length; each unit equal to `oldChar` becomes `newChar` and every other unit is kept |
| `JavaText.ReplaceAbsent` | examples/src/main/java/io/grpc/examples/namechanger/NamechangerServer.java:94 | when `oldChar` does not occur, the string is returned unchanged |
| `JavaText.ReplaceEliminates` | examples/src/main/java/io/grpc/examples/namechanger/NamechangerServer.java:94 | when `newChar != oldChar`, no `oldChar` remains in the result |
| `JavaText.ReplaceIdempotent` | examples/src/main/java/io/grpc/examples/namechanger/NamechangerServer.java:94 | replacing twice gives the same string as replacing once |
| `JavaText.ReplaceRev` | examples/src/main/java/io/grpc/examples/namechanger/NamechangerServer.java:94 | replacing in the reversal equals reversing the replaced string |
| `Namechanger.CharReplace` | examples/src/main/java/io/grpc/examples/namechanger/NamechangerServer.java:92-98 | it throws exactly when `chara` is empty, with `StringIndexOutOfBounds(0, 0)`; otherwise the reply is the prefix `"the character changed to *: "` followed by `|name|` units, where unit `k` is `chara[0]` if `name[k]` is `'i'` and `name[k]` otherwise (case-sensitive: `'I'` is kept) |
| `Namechanger.CharReplaceWithoutI` | examples/src/main/java/io/grpc/examples/namechanger/NamechangerServer.java:94-95 | a name with no `'i'` comes back unchanged behind the prefix |
| `Namechanger.CharReplaceRemovesI` | examples/src/main/java/io/grpc/examples/namechanger/NamechangerServer.java:94-95 | when `chara[0]` is not `'i'`, the reply has no `'i'` after its prefix |
| `Namechanger.CharReplaceIdempotent` | examples/src/main/java/io/grpc/examples/namechanger/NamechangerServer.java:94-95 | sending the replaced name back with the same `chara` gives the same reply |
| `Namechanger.CharReplaceOfReversed` | examples/src/main/java/io/grpc/examples/namechanger/NamechangerServer.java:94-95 | the char-replace reply for the reversed name carries the reversal of the replaced name |
| `Namechanger.CharReplaceExamples` | examples/src/main/java/io/grpc/examples/namechanger/NamechangerServer.java:92-98 | `"civic"` with `"x"` gives `"cxvxc"`; `"abc"` with `"z"` gives `"abc"`; `"hi"` with an empty `chara` throws |

## Left out

- Server lifecycle (`start`, `stop`, `blockUntilShutdown`, `main`, NamechangerServer.java:33-74): binding port 50051, the JVM shutdown hook and blocking on termination are I/O and process lifecycle handled by the gRPC runtime.
- `StreamObserver.onNext` and `onCompleted` (lines 87-88 and 96-97): transport callbacks. Each handler returns its single reply instead.
- What the gRPC runtime does with the exception `charReplace` throws (the status sent to the client): that code is not part of this model.
- The generated `InputRequest`, `ResultReply` and `GreeterGrpc` classes: replaced by plain datatypes with the fields `name`, `chara` and `message`.
- Protobuf's UTF-8 encoding of the reply: a reversed surrogate pair is not valid UTF-16, and how the encoder treats it is outside these handlers.
- Logging (line 40) and the stderr messages of the shutdown hook (lines 45-47): output only.
- Java's `int` bound on string length: neither handler does arithmetic that could overflow for a string Java can hold.
