/** The record transformer: from the raw product document the API returns
    to the slim record written into batch files. */
module Transform {
  import opened Values

  /** The slim record: exactly the keys id, name, url_key, price,
      description and images. */
  datatype Product = Product(
    id: Value,
    name: Value,
    urlKey: Value,
    price: Value,
    description: string,
    images: seq<Value>)

  /** What `transform_product` does with its input: returns None (`Absent`),
      returns a record, or raises (`Raises`: `raw.get` on a truthy value
      that is not a dict, the HTML parser given a truthy description that is
      not a string, or a `for` loop over a truthy `images` value that is not
      iterable). */
  datatype Transformed = Absent | Built(product: Product) | Raises

  /** `clean_description`: an empty or missing text gives "". A non-empty
      string goes to the HTML-to-text extractor, which is a parameter here.
      Any other truthy value (a number, `True`, a list or a dict) is rejected
      by the parser, and the call raises (None). */
  function CleanDescription(text: Value, htmlText: string -> string): (r: Option<string>)
    ensures !Truthy(text) ==> r == Some("")
    ensures r.None? <==> Truthy(text) && !text.Str?
    ensures Truthy(text) && text.Str? ==> r == Some(htmlText(text.s))
  {
    if !Truthy(text) then Some("")
    else if text.Str? then Some(htmlText(text.s))
    else None
  }

  /** The URL one entry of the image list contributes:
      `img.get("base_url") or img.get("thumbnail_url") or img.get("medium_url")`
      for a dict entry, kept only when truthy; nothing for other entries. */
  function ImageUrl(img: Value): (r: Option<Value>)
    ensures r.Some? <==>
      img.Obj? &&
      (Truthy(Field(img, "base_url")) || Truthy(Field(img, "thumbnail_url")) ||
       Truthy(Field(img, "medium_url")))
    ensures r.Some? ==> Truthy(r.value)
    ensures r.Some? && Truthy(Field(img, "base_url")) ==>
      r.value == Field(img, "base_url")
    ensures r.Some? && !Truthy(Field(img, "base_url")) && Truthy(Field(img, "thumbnail_url")) ==>
      r.value == Field(img, "thumbnail_url")
    ensures r.Some? && !Truthy(Field(img, "base_url")) && !Truthy(Field(img, "thumbnail_url")) ==>
      r.value == Field(img, "medium_url")
  {
    if !img.Obj? then None
    else
      var url := Or(Or(Field(img, "base_url"), Field(img, "thumbnail_url")), Field(img, "medium_url"));
      if Truthy(url) then Some(url) else None
  }

  /** The contribution of one entry to the image list: zero or one URL. */
  function Contribution(img: Value): seq<Value>
  {
    match ImageUrl(img)
    case Some(u) => [u]
    case None => []
  }

  /** The image list built from a sequence of entries: each entry's
      contribution, in entry order. */
  function ImageUrls(entries: seq<Value>): seq<Value>
    decreases |entries|
  {
    if entries == [] then []
    else ImageUrls(entries[..|entries| - 1]) + Contribution(entries[|entries| - 1])
  }

  /** The entries `for img in (images or [])` visits, or None where that loop
      raises TypeError (a truthy number or `True`). A string is iterated
      character by character. Iterating a dict visits its keys, which are
      strings: none of them is a dict, so none contributes, and the model
      gives a dict no entries. */
  function ImageEntries(images: Value): (r: Option<seq<Value>>)
    ensures !Truthy(images) ==> r == Some([])
    ensures images.Arr? ==> r == Some(images.items)
    ensures r.None? <==> (images.Num? && images.n != 0) || images == Bool(true)
  {
    match images
    case Null => Some([])
    case Bool(b) => if b then None else Some([])
    case Num(n) => if n != 0 then None else Some([])
    case Str(s) => if s == "" then Some([]) else Some(seq(|s|, i requires 0 <= i < |s| => Str([s[i]])))
    case Arr(items) => Some(items)
    case Obj(_) => Some([])
  }

  /** The whole of `transform_product`, as a value. */
  function Normalize(raw: Value, htmlText: string -> string): Transformed
  {
    if !Truthy(raw) then Absent
    else if !raw.Obj? then Raises
    else
      var desc := CleanDescription(Get(raw.fields, "description"), htmlText);
      var entries := ImageEntries(Get(raw.fields, "images"));
      if desc.None? || entries.None? then Raises
      else
        Built(Product(
          Get(raw.fields, "id"),
          Get(raw.fields, "name"),
          Get(raw.fields, "url_key"),
          Get(raw.fields, "price"),
          desc.value,
          ImageUrls(entries.value)))
  }

  /** `transform_product`: the image list is filled entry by entry, as the
      source's loop does. */
  method TransformProduct(raw: Value, htmlText: string -> string) returns (r: Transformed)
    ensures r == Normalize(raw, htmlText)
  {
    if !Truthy(raw) {
      return Absent;
    }
    if !raw.Obj? {
      return Raises;
    }
    var desc := CleanDescription(Get(raw.fields, "description"), htmlText);
    if desc.None? {
      return Raises;
    }
    var entries := ImageEntries(Get(raw.fields, "images"));
    if entries.None? {
      return Raises;
    }
    var imgs := entries.value;
    var urls: seq<Value> := [];
    var i := 0;
    while i < |imgs|
      invariant 0 <= i <= |imgs|
      invariant urls == ImageUrls(imgs[..i])
    {
      var url := ImageUrl(imgs[i]);
      if url.Some? {
        urls := urls + [url.value];
      }
      assert imgs[..i + 1][..i] == imgs[..i];
      i := i + 1;
    }
    assert imgs[..i] == imgs;
    r := Built(Product(
      Get(raw.fields, "id"),
      Get(raw.fields, "name"),
      Get(raw.fields, "url_key"),
      Get(raw.fields, "price"),
      desc.value,
      urls));
  }

  /** The image list distributes over concatenation of the entry list: the
      output is the input order, entry by entry, minus the dropped entries. */
  lemma {:induction false} ImageUrlsAppend(a: seq<Value>, b: seq<Value>)
    ensures ImageUrls(a + b) == ImageUrls(a) + ImageUrls(b)
    decreases |b|
  {
    if b == [] {
      assert a + b == a;
    } else {
      var b' := b[..|b| - 1];
      assert (a + b)[..|a + b| - 1] == a + b';
      assert (a + b)[|a + b| - 1] == b[|b| - 1];
      ImageUrlsAppend(a, b');
    }
  }

  /** Every URL in the list is truthy, the list is no longer than the
      entry list, and it is empty when no entry contributes. */
  lemma {:induction false} ImageUrlsBounds(entries: seq<Value>)
    ensures |ImageUrls(entries)| <= |entries|
    ensures forall k :: 0 <= k < |ImageUrls(entries)| ==> Truthy(ImageUrls(entries)[k])
    ensures (forall i :: 0 <= i < |entries| ==> ImageUrl(entries[i]).None?) ==> ImageUrls(entries) == []
    decreases |entries|
  {
    if entries != [] {
      var init := entries[..|entries| - 1];
      ImageUrlsBounds(init);
      assert forall i :: 0 <= i < |init| ==> init[i] == entries[i];
    }
  }

  /** A URL is in the image list exactly when some entry contributes it. */
  lemma ImageUrlsMembership(entries: seq<Value>, u: Value)
    ensures u in ImageUrls(entries) <==> exists i :: 0 <= i < |entries| && ImageUrl(entries[i]) == Some(u)
  {
    if u in ImageUrls(entries) {
      var i := ListedIsContributed(entries, u);
    }
    if exists i :: 0 <= i < |entries| && ImageUrl(entries[i]) == Some(u) {
      var i :| 0 <= i < |entries| && ImageUrl(entries[i]) == Some(u);
      ContributedIsListed(entries, i, u);
    }
  }

  /** The URL entry `i` contributes is in the image list. */
  lemma {:induction false} ContributedIsListed(entries: seq<Value>, i: nat, u: Value)
    requires i < |entries| && ImageUrl(entries[i]) == Some(u)
    ensures u in ImageUrls(entries)
    decreases |entries|
  {
    var n := |entries| - 1;
    if i < n {
      assert entries[..n][i] == entries[i];
      ContributedIsListed(entries[..n], i, u);
    } else {
      assert Contribution(entries[n]) == [u];
    }
  }

  /** Every URL in the image list is contributed by some entry. */
  lemma {:induction false} ListedIsContributed(entries: seq<Value>, u: Value) returns (i: nat)
    requires u in ImageUrls(entries)
    ensures i < |entries| && ImageUrl(entries[i]) == Some(u)
    decreases |entries|
  {
    var n := |entries| - 1;
    if u in ImageUrls(entries[..n]) {
      i := ListedIsContributed(entries[..n], u);
      assert entries[..n][i] == entries[i];
    } else {
      i := n;
    }
  }

  /** When every entry is a dict with a truthy `base_url`, the image list
      is exactly the `base_url`s, one per entry, in entry order. */
  lemma {:induction false} ImageUrlsAllBase(entries: seq<Value>)
    requires forall i :: 0 <= i < |entries| ==> entries[i].Obj? && Truthy(Field(entries[i], "base_url"))
    ensures |ImageUrls(entries)| == |entries|
    ensures forall i :: 0 <= i < |entries| ==> ImageUrls(entries)[i] == Field(entries[i], "base_url")
    decreases |entries|
  {
    if entries != [] {
      var init := entries[..|entries| - 1];
      assert forall i :: 0 <= i < |init| ==> init[i] == entries[i];
      ImageUrlsAllBase(init);
    }
  }

  /** Example: `[{base_url: "A"}, {thumbnail_url: "B"}, {}]`
      gives `["A", "B"]`. */
  lemma ImageUrlsExample()
    ensures ImageUrls([Obj(map["base_url" := Str("A")]), Obj(map["thumbnail_url" := Str("B")]), Obj(map[])])
         == [Str("A"), Str("B")]
  {
    var e := [Obj(map["base_url" := Str("A")]), Obj(map["thumbnail_url" := Str("B")]), Obj(map[])];
    assert Field(e[0], "base_url") == Str("A");
    assert Field(e[1], "base_url") == Null && Field(e[1], "thumbnail_url") == Str("B");
    assert Contribution(e[0]) == [Str("A")];
    assert Contribution(e[1]) == [Str("B")];
    assert Contribution(e[2]) == [];
    assert e[..2][..1] == [e[0]];
    assert [e[0]][..0] == [];
    assert e[..2][1] == e[1];
    assert ImageUrls([e[0]]) == [Str("A")];
    assert ImageUrls(e[..2]) == [Str("A"), Str("B")];
  }

  /** The shape of `transform_product`'s result: None exactly for a falsy
      input; a raise exactly for a truthy non-dict, a truthy description
      that is not a string or a truthy non-iterable `images`; otherwise the
      four fields copied with a missing key giving None, the description
      ("" when missing or empty, the extractor's text of a string), and an
      image list that is empty when `images` is missing or falsy and never
      longer than the entries. */
  lemma NormalizeContract(raw: Value, htmlText: string -> string)
    ensures Normalize(raw, htmlText) == Absent <==> !Truthy(raw)
    ensures Normalize(raw, htmlText) == Raises <==>
      Truthy(raw) &&
      (!raw.Obj? || CleanDescription(Get(raw.fields, "description"), htmlText).None? ||
       ImageEntries(Get(raw.fields, "images")).None?)
    ensures Normalize(raw, htmlText).Built? ==>
      var p := Normalize(raw, htmlText).product;
      && p.id == Get(raw.fields, "id") && p.name == Get(raw.fields, "name")
      && p.urlKey == Get(raw.fields, "url_key") && p.price == Get(raw.fields, "price")
      && (!Truthy(Get(raw.fields, "description")) ==> p.description == "")
      && (Truthy(Get(raw.fields, "description")) ==> p.description == htmlText(Get(raw.fields, "description").s))
      && (!Truthy(Get(raw.fields, "images")) ==> p.images == [])
      && |p.images| <= |ImageEntries(Get(raw.fields, "images")).value|
  {
    if Normalize(raw, htmlText).Built? {
      ImageUrlsBounds(ImageEntries(Get(raw.fields, "images")).value);
    }
  }
}
