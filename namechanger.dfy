/** The two request handlers of the namechanger Greeter service (GreeterImpl in
    NamechangerServer.java). Each unary call takes an InputRequest and answers
    with one ResultReply; here a handler returns that reply instead of passing
    it to a response observer. */
module Namechanger {
  import opened JavaText

  /** The request message: `name` is the text to transform, `chara` supplies the
      replacement code unit for CharReplace (only its first code unit is read). */
  datatype InputRequest = InputRequest(name: JavaString, chara: JavaString)

  /** The reply message: one human-readable line. */
  datatype ResultReply = ResultReply(message: JavaString)

  /** The Java exception a handler can raise. */
  datatype JavaException = StringIndexOutOfBounds(index: int, length: int)

  /** How a handler call ends: it completes with its single reply, or it throws
      before any reply is sent. */
  datatype Outcome = Completed(reply: ResultReply) | Threw(exception: JavaException)

  /** The code unit 'i' (U+0069), the one CharReplace substitutes. */
  const LowerI: CodeUnit := 0x69

  const ReversePrefix: JavaString := FromAscii("the name reversed is: ")

  const CharReplacePrefix: JavaString := FromAscii("the character changed to *: ")

  /** GreeterImpl.reverse: copies `name` back to front one code unit at a time,
      walking the index down from the last position to 0, and replies with the
      fixed prefix followed by that copy. */
  method Reverse(req: InputRequest) returns (reply: ResultReply)
    ensures reply.message == ReversePrefix + Rev(req.name)
    ensures |reply.message| == |ReversePrefix| + |req.name|
    ensures forall k :: |ReversePrefix| <= k < |reply.message| ==>
              reply.message[k] == req.name[|reply.message| - 1 - k]
    ensures req.name == [] ==> reply.message == ReversePrefix
  {
    var name := req.name;
    var reversed: JavaString := [];
    var i := |name| - 1;
    while i >= 0
      invariant -1 <= i < |name|
      invariant reversed == Rev(name[i + 1..])
    {
      RevCons(name[i], name[i + 1..]);
      assert [name[i]] + name[i + 1..] == name[i..];
      reversed := reversed + [name[i]];
      i := i - 1;
    }
    assert name[0..] == name;
    RevLength(name);
    forall k | 0 <= k < |name|
      ensures reversed[k] == name[|name| - 1 - k]
    {
      RevAt(name, k);
    }
    reply := ResultReply(ReversePrefix + reversed);
  }

  /** GreeterImpl.charReplace: `name.replace('i', chara.charAt(0))` behind the
      fixed prefix. With an empty `chara`, `charAt(0)` throws and no reply is sent. */
  function CharReplace(req: InputRequest): (out: Outcome)
    ensures out.Threw? <==> req.chara == []
    ensures out.Threw? ==> out.exception == StringIndexOutOfBounds(0, 0)
    ensures out.Completed? ==>
              var m := out.reply.message;
              var n := |CharReplacePrefix|;
              |m| == n + |req.name| &&
              m[..n] == CharReplacePrefix &&
              forall k :: 0 <= k < |req.name| ==>
                m[n + k] == if req.name[k] == LowerI then req.chara[0] else req.name[k]
  {
    if |req.chara| == 0 then
      Threw(StringIndexOutOfBounds(0, |req.chara|))
    else
      Completed(ResultReply(CharReplacePrefix + Replace(req.name, LowerI, req.chara[0])))
  }

  /** The reverse reply carries the whole name: strip the prefix, read the rest
      back to front, and the request's name comes out. */
  lemma ReverseReplyRecoversName(name: JavaString)
    ensures var m := ReversePrefix + Rev(name);
            m[..|ReversePrefix|] == ReversePrefix &&
            Rev(m[|ReversePrefix|..]) == name
  {
    var m := ReversePrefix + Rev(name);
    assert m[|ReversePrefix|..] == Rev(name);
    RevInvolution(name);
  }

  /** A name without 'i' comes back unchanged behind the prefix. */
  lemma CharReplaceWithoutI(req: InputRequest)
    requires req.chara != [] && LowerI !in req.name
    ensures CharReplace(req) == Completed(ResultReply(CharReplacePrefix + req.name))
  {
  }

  /** Unless the replacement is 'i' itself, no 'i' is left after the prefix. */
  lemma CharReplaceRemovesI(req: InputRequest)
    requires req.chara != [] && req.chara[0] != LowerI
    ensures CharReplace(req).Completed?
    ensures LowerI !in CharReplace(req).reply.message[|CharReplacePrefix|..]
  {
  }

  /** Feeding the replaced text back with the same `chara` gives the same reply. */
  lemma CharReplaceIdempotent(req: InputRequest)
    requires req.chara != []
    ensures var again := InputRequest(Replace(req.name, LowerI, req.chara[0]), req.chara);
            CharReplace(again) == CharReplace(req)
  {
  }

  /** The two handlers commute on the name: replacing in the reversed name equals
      reversing the replaced name. */
  lemma CharReplaceOfReversed(req: InputRequest)
    requires req.chara != []
    ensures CharReplace(InputRequest(Rev(req.name), req.chara)) ==
            Completed(ResultReply(CharReplacePrefix + Rev(Replace(req.name, LowerI, req.chara[0]))))
  {
    ReplaceRev(req.name, LowerI, req.chara[0]);
  }

  /** Worked cases: "civic" with "x", "abc" with "z", and "hi" with an empty chara. */
  lemma CharReplaceExamples()
    ensures CharReplace(InputRequest(FromAscii("civic"), FromAscii("x"))) ==
            Completed(ResultReply(CharReplacePrefix + FromAscii("cxvxc")))
    ensures CharReplace(InputRequest(FromAscii("abc"), FromAscii("z"))) ==
            Completed(ResultReply(CharReplacePrefix + FromAscii("abc")))
    ensures CharReplace(InputRequest(FromAscii("hi"), [])) ==
            Threw(StringIndexOutOfBounds(0, 0))
  {
    var civic := FromAscii("civic");
    var r := Replace(civic, LowerI, FromAscii("x")[0]);
    assert r == FromAscii("cxvxc");
    CharReplaceWithoutI(InputRequest(FromAscii("abc"), FromAscii("z")));
  }
}
