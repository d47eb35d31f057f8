/** The multimodal encoding step of `add_message`: a list of content items
    becomes a list of typed blocks, which is then JSON-serialised. */
module Multimodal {
  import opened Wrappers
  import opened Json

  /** One element of a content list as a caller passes it. Only whether an
      element is a dict, and whether that dict has an `image` or a `text`
      key, decides how it is encoded. */
  datatype Item =
    | Scalar(value: string)                              // any element that is not a dict
    | Dict(image: Option<string>, text: Option<string>)  // a dict; other keys are ignored

  /** A typed block: `{'type': 'text', ...}` or `{'type': 'image_url', ...}`. */
  datatype Block = TextBlock(text: string) | ImageBlock(url: string)

  /** An item the encoder accepts: a non-dict, or a dict with `image` or `text`. */
  predicate WellShaped(item: Item) {
    item.Scalar? || item.image.Some? || item.text.Some?
  }

  /** The block for one accepted item. `image` takes precedence over `text`;
      the image reference goes through the external encoder. */
  function BlockFor(encodeImage: string -> string, item: Item): Block
    requires WellShaped(item)
  {
    match item
    case Scalar(v) => TextBlock(v)
    case Dict(image, text) =>
      if image.Some? then ImageBlock(encodeImage(image.value)) else TextBlock(text.value)
  }

  /** Encodes a content list. It fails (the source raises 'message type wrong')
      exactly when some item is a dict with neither key; otherwise it yields one
      block per item, in the same order. */
  function EncodeItems(encodeImage: string -> string, items: seq<Item>): (r: Option<seq<Block>>)
    ensures r.Some? <==> forall i :: 0 <= i < |items| ==> WellShaped(items[i])
    ensures r.Some? ==> |r.value| == |items|
    ensures r.Some? ==> forall i :: 0 <= i < |items| ==> r.value[i] == BlockFor(encodeImage, items[i])
  {
    if items == [] then Some([])
    else if !WellShaped(items[0]) then None
    else
      match EncodeItems(encodeImage, items[1..])
      case None => None
      case Some(rest) => Some([BlockFor(encodeImage, items[0])] + rest)
  }

  /** The dict `json.dumps` is given for one block. */
  function BlockToJson(b: Block): Json {
    match b
    case TextBlock(t) => JObj([("type", JStr("text")), ("text", JStr(t))])
    case ImageBlock(u) => JObj([("type", JStr("image_url")), ("image_url", JObj([("url", JStr(u))]))])
  }

  function BlockListToJson(bs: seq<Block>): seq<Json> {
    if bs == [] then [] else [BlockToJson(bs[0])] + BlockListToJson(bs[1..])
  }

  /** The list `json.dumps` is given for a block list. */
  function BlocksToJson(bs: seq<Block>): Json {
    JArr(BlockListToJson(bs))
  }

  /** Reads a parsed JSON value back as a block, if it has a block's shape. */
  function JsonToBlock(j: Json): Option<Block> {
    if j.JObj? && |j.fields| == 2 && j.fields[0] == ("type", JStr("text"))
       && j.fields[1].0 == "text" && j.fields[1].1.JStr?
    then Some(TextBlock(j.fields[1].1.s))
    else if j.JObj? && |j.fields| == 2 && j.fields[0] == ("type", JStr("image_url"))
       && j.fields[1].0 == "image_url" && j.fields[1].1.JObj?
       && |j.fields[1].1.fields| == 1 && j.fields[1].1.fields[0].0 == "url"
       && j.fields[1].1.fields[0].1.JStr?
    then Some(ImageBlock(j.fields[1].1.fields[0].1.s))
    else None
  }

  function JsonListToBlocks(js: seq<Json>): Option<seq<Block>> {
    if js == [] then Some([])
    else
      match (JsonToBlock(js[0]), JsonListToBlocks(js[1..]))
      case (Some(b), Some(rest)) => Some([b] + rest)
      case _ => None
  }

  /** Reads a parsed JSON value back as a block list, if it has that shape. */
  function JsonToBlocks(j: Json): Option<seq<Block>> {
    if j.JArr? then JsonListToBlocks(j.elems) else None
  }

  lemma BlockRoundTrip(b: Block)
    ensures JsonToBlock(BlockToJson(b)) == Some(b)
  {
  }

  /** A value decodes to a block only if it is that block's encoding. */
  lemma BlockDecodeExact(j: Json, b: Block)
    requires JsonToBlock(j) == Some(b)
    ensures j == BlockToJson(b)
  {
    match b
    case TextBlock(t) =>
      assert j.fields == [("type", JStr("text")), ("text", JStr(t))];
    case ImageBlock(u) =>
      var inner := j.fields[1].1;
      assert inner.fields == [("url", JStr(u))];
      assert j.fields == [("type", JStr("image_url")), ("image_url", JObj([("url", JStr(u))]))];
  }

  /** Decoding inverts the encoding: every block list is read back unchanged. */
  lemma {:induction false} BlocksRoundTrip(bs: seq<Block>)
    ensures JsonToBlocks(BlocksToJson(bs)) == Some(bs)
  {
    if bs != [] {
      BlockRoundTrip(bs[0]);
      BlocksRoundTrip(bs[1..]);
      assert [bs[0]] + bs[1..] == bs;
    }
  }

  /** The converse: a parsed value is read as the block list `bs` only when it
      is exactly the encoding of `bs`, so decoding never misreads the store's
      own output and accepts nothing else as that list. */
  lemma {:induction false} BlocksDecodeExact(j: Json, bs: seq<Block>)
    requires JsonToBlocks(j) == Some(bs)
    ensures j == BlocksToJson(bs)
  {
    BlockListDecodeExact(j.elems, bs);
  }

  lemma {:induction false} BlockListDecodeExact(js: seq<Json>, bs: seq<Block>)
    requires JsonListToBlocks(js) == Some(bs)
    ensures js == BlockListToJson(bs)
  {
    if js != [] {
      var b := JsonToBlock(js[0]).value;
      var rest := JsonListToBlocks(js[1..]).value;
      assert bs == [b] + rest;
      BlockDecodeExact(js[0], b);
      BlockListDecodeExact(js[1..], rest);
      assert bs[1..] == rest;
      assert js == [js[0]] + js[1..];
    }
  }
}
