/** Concrete replies on which the two cleanups of functions/index.js part
    ways. */
module FenceContrast {
  import opened Text
  import opened Fences
  import opened ImageFence
  import opened AudioFence

  /** On a reply that opens with a fence, when both it and its deletion
      start and end with visible characters, the audio result is that
      deletion. */
  lemma AudioResult(reply: string, out: string)
    requires reply != [] && IsVisible(reply[0]) && IsVisible(reply[|reply| - 1])
    requires StartsWith(reply, Fence)
    requires out != [] && IsVisible(out[0]) && IsVisible(out[|out| - 1])
    requires DeleteFences(reply) == out
    ensures StripAudioFence(reply) == out
  {
    VisibleEndsTrimmed(reply);
    VisibleEndsTrimmed(out);
    AudioOnTrimmedFenced(reply);
    TrimmedIsFixed(out);
  }

  /** When a reply and its fence-stripped body both start and end with
      visible characters, the image result is that body. */
  lemma ImageResult(reply: string, out: string)
    requires reply != [] && IsVisible(reply[0]) && IsVisible(reply[|reply| - 1])
    requires out != [] && IsVisible(out[0]) && IsVisible(out[|out| - 1])
    requires ImageBody(reply) == out
    ensures StripImageFence(reply) == out
  {
    VisibleEndsTrimmed(reply);
    VisibleEndsTrimmed(out);
    ImageOnTrimmed(reply);
    TrimmedIsFixed(out);
  }

  /** Deleting the fences of "{a}```b```" leaves "{a}b". */
  lemma InnerDeletion()
    ensures DeleteFences("{a}" + Fence + "b" + Fence) == "{a}b"
  {
    var x := "{a}" + Fence + "b" + Fence;
    assert x == "{a}" + (Fence + ("b" + Fence));
    DeleteBareFence("");
    assert Fence + "" == Fence;
    PlainPrefixKept("b", Fence);
    DeleteBareFence("b" + Fence);
    PlainPrefixKept("{a}", Fence + ("b" + Fence));
  }

  lemma MidTextDeletion()
    ensures DeleteFences("```json{a}```b```") == "{a}b"
  {
    var reply := "```json{a}```b```";
    var x := reply[7..];
    assert reply == JsonFence + x;
    assert x == "{a}" + Fence + "b" + Fence;
    InnerDeletion();
    DeleteJsonFence(x);
  }

  /** A fence in the middle of the reply: the audio path deletes it along
      with the outer ones. */
  lemma AudioMidTextFence()
    ensures StripAudioFence("```json{a}```b```") == "{a}b"
  {
    var reply := "```json{a}```b```";
    assert reply[..3] == Fence;
    MidTextDeletion();
    AudioResult(reply, "{a}b");
  }

  lemma MidTextImageBody()
    ensures ImageBody("```json{a}```b```") == "{a}```b"
  {
    var reply := "```json{a}```b```";
    assert reply[..7] == JsonFence;
    var rest := "{a}```b```";
    assert DropJsonOpening(reply) == rest;
    assert rest[..3][0] == '{';
    assert DropOpening(rest) == rest;
    assert rest[7..] == Fence;
    assert DropClosing(rest) == "{a}```b";
  }

  /** The same reply on the image path: only the outer fences are stripped
      and the inner one reaches `JSON.parse`. */
  lemma ImageMidTextFence()
    ensures StripImageFence("```json{a}```b```") == "{a}```b"
  {
    MidTextImageBody();
    ImageResult("```json{a}```b```", "{a}```b");
  }

  lemma JsoDeletion()
    ensures DeleteFences("```jso{}") == "{}"
  {
    var reply := "```jso{}";
    var x := reply[6..];
    assert reply == JsoFence + x && x == "{}" + "";
    assert x[..1][0] == '{';
    DeleteJsoFence(x);
    PlainPrefixKept("{}", "");
  }

  lemma JsDeletion()
    ensures DeleteFences("```js{}") == "js{}"
  {
    var reply := "```js{}";
    var x := reply[3..];
    assert reply == Fence + x && x == "js{}" + "";
    assert x[..3][2] == '{';
    DeleteBareFence(x);
    PlainPrefixKept("js{}", "");
  }

  /** The audio pattern `json?` makes the `n` optional, so a reply opened
      with "```jso" loses the whole tag. */
  lemma AudioJsoTag()
    ensures StripAudioFence("```jso{}") == "{}"
  {
    var reply := "```jso{}";
    assert reply[..3] == Fence;
    JsoDeletion();
    AudioResult(reply, "{}");
  }

  /** A shorter tag such as "```js" is not matched by `json?`: only the
      backticks go. */
  lemma AudioJsTag()
    ensures StripAudioFence("```js{}") == "js{}"
  {
    var reply := "```js{}";
    assert reply[..3] == Fence;
    JsDeletion();
    AudioResult(reply, "js{}");
  }

  lemma DoubleBareBody()
    ensures ImageBody("```json``````{}") == "```{}"
  {
    var reply := "```json``````{}";
    assert reply[..7] == JsonFence;
    var rest := "``````{}";
    assert DropJsonOpening(reply) == rest;
    assert rest[..3] == Fence;
    assert DropOpening(rest) == "```{}";
    assert "```{}"[2..] == "`{}";
    assert DropClosing("```{}") == "```{}";
  }

  lemma BareBody()
    ensures ImageBody("```{}") == "{}"
  {
    var reply := "```{}";
    assert |reply| < |JsonFence|;
    assert reply[..3] == Fence;
    assert DropOpening(reply) == "{}";
    assert DropClosing("{}") == "{}";
  }

  /** The image cleanup is not idempotent: "```json" followed by two bare
      fences keeps one fence, which a second pass removes. */
  lemma ImageNotIdempotent()
    ensures StripImageFence("```json``````{}") == "```{}"
    ensures StripImageFence(StripImageFence("```json``````{}")) == "{}"
  {
    DoubleBareBody();
    ImageResult("```json``````{}", "```{}");
    BareBody();
    ImageResult("```{}", "{}");
  }

  /** When the opening check takes one of the two closing fences, nothing
      of them survives: six backticks alone reach `JSON.parse` as "". */
  lemma ImageOverlappingFences()
    ensures StripImageFence("``````") == ""
  {
    var reply := Fence + Fence;
    assert reply == "``````";
    assert reply[0] == '`' && reply[|reply| - 1] == '`';
    VisibleEndsTrimmed(reply);
    TrimmedIsFixed(reply);
    assert !StartsWith(Fence, "json");
    BodyOfBareOpening(Fence);
    assert Fence[..0] == [];
  }
}
