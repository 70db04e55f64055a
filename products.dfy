/** The product form: the text fields the user fills in, the check made
    before saving (`validateInformation`), the parsing of the free-text size
    list (`getSizesList`) and the record that is written to the catalog. */
module Products {
  import opened Collections
  import opened Text
  import opened Colors

  /** A local image reference handed out by the image picker. */
  type Uri = string

  /** A download URL returned by the object store. */
  type Url = string

  /** The raw text of the six edit fields, as typed. */
  datatype Form = Form(
    name: string,
    category: string,
    price: string,
    offerPercentage: string,
    description: string,
    sizes: string)

  /** The catalog record. `price` and `offerPercentage` hold the trimmed
      text that the screen converts to floating point. */
  datatype Product = Product(
    id: string,
    name: string,
    category: string,
    price: string,
    offerPercentage: string,
    description: string,
    colors: seq<Int32>,
    sizes: Option<seq<string>>,
    imageUrls: seq<Url>)

  /** `validateInformation`: at least one image is selected and the name,
      category and price fields hold something other than whitespace. The
      price is not required to be a number, let alone a positive one, and the
      other fields play no part. */
  function ValidateInformation(images: seq<Uri>, form: Form): (valid: bool)
    ensures valid <==> |images| > 0 && !Blank(form.name) && !Blank(form.category) && !Blank(form.price)
  {
    if |images| == 0 then false
    else if Trim(form.name) == [] then false
    else if Trim(form.category) == [] then false
    else if Trim(form.price) == [] then false
    else true
  }

  /** Offer percentage, description and sizes never change the verdict. */
  lemma ValidationIgnoresOptionalFields(images: seq<Uri>, f: Form, g: Form)
    requires f.name == g.name && f.category == g.category && f.price == g.price
    ensures ValidateInformation(images, f) == ValidateInformation(images, g)
  {
  }

  /** A price that is no number, or a negative one, still passes; a missing
      image or a blank category does not. */
  lemma ValidationExamples()
    ensures ValidateInformation(["content://media/1"], Form("Shirt", "Tops", "abc", "", "", ""))
    ensures ValidateInformation(["content://media/1"], Form("Shirt", "Tops", " -5 ", "", "", ""))
    ensures !ValidateInformation([], Form("Shirt", "Tops", "19.99", "", "", ""))
    ensures !ValidateInformation(["content://media/1"], Form("Shirt", " \t", "abc", "", "", ""))
  {
    assert !IsWhitespace("Shirt"[0]);
    assert !IsWhitespace("Tops"[0]);
    assert !IsWhitespace("abc"[0]);
    assert !IsWhitespace(" -5 "[1]);
    assert Blank(" \t");
  }

  /** `getSizesList`: no list for the empty string; otherwise the pieces
      between commas, each trimmed, in order, empty pieces included. */
  function GetSizesList(sizes: string): (r: Option<seq<string>>)
    ensures r.None? <==> sizes == []
    ensures r.Some? ==> |r.value| == Count(sizes, ',') + 1
    ensures r.Some? ==> forall i :: 0 <= i < |r.value| ==> Trimmed(r.value[i])
    ensures r.Some? ==> forall i :: 0 <= i < |r.value| ==> r.value[i] == Trim(Split(sizes, ',')[i])
  {
    if sizes == [] then None
    else
      Some(TrimEach(Split(sizes, ',')))
  }

  /** Kotlin's `map { it.trim() }`. */
  function TrimEach(pieces: seq<string>): (r: seq<string>)
    ensures |r| == |pieces|
    ensures forall i :: 0 <= i < |r| ==> r[i] == Trim(pieces[i])
  {
    if pieces == [] then [] else [Trim(pieces[0])] + TrimEach(pieces[1..])
  }

  /** The screen trims the size field before parsing it, so a field that is
      only whitespace gives no list. */
  lemma SizesOfBlankField(text: string)
    ensures GetSizesList(Trim(text)).None? <==> Blank(text)
  {
  }

  /** No parsed size contains a comma: each is a piece between commas. */
  lemma SizesHaveNoComma(sizes: string)
    requires sizes != []
    ensures forall i :: 0 <= i < |GetSizesList(sizes).value| ==> ',' !in GetSizesList(sizes).value[i]
  {
    var pieces := Split(sizes, ',');
    forall i | 0 <= i < |pieces| ensures ',' !in Trim(pieces[i]) {
      TrimKeepsCharacters(pieces[i]);
    }
  }

  /** When every comma-separated piece is already free of surrounding
      whitespace, joining the parsed list with commas gives back the text. */
  lemma SizesJoinBack(sizes: string)
    requires sizes != []
    requires forall i :: 0 <= i < |Split(sizes, ',')| ==> Trimmed(Split(sizes, ',')[i])
    ensures Join(GetSizesList(sizes).value, ',') == sizes
  {
    var pieces := Split(sizes, ',');
    TrimEachOfTrimmed(pieces);
    JoinSplit(sizes, ',');
  }

  /** Trimming pieces that are already trimmed changes none of them. */
  lemma TrimEachOfTrimmed(pieces: seq<string>)
    requires forall i :: 0 <= i < |pieces| ==> Trimmed(pieces[i])
    ensures TrimEach(pieces) == pieces
  {
    TrimEachPointwise(pieces);
  }

  lemma TrimEachPointwise(pieces: seq<string>)
    requires forall i :: 0 <= i < |pieces| ==> Trimmed(pieces[i])
    ensures forall i :: 0 <= i < |pieces| ==> TrimEach(pieces)[i] == pieces[i]
  {
    var r := TrimEach(pieces);
    forall i | 0 <= i < |pieces| ensures r[i] == pieces[i] {
      TrimOfTrimmed(pieces[i]);
    }
  }

  /** Conversely, a list of trimmed, comma-free sizes whose join is not empty
      is read back exactly from its comma-joined text. */
  lemma SizesFromJoin(parts: seq<string>)
    requires |parts| >= 1 && Join(parts, ',') != []
    requires forall i :: 0 <= i < |parts| ==> Trimmed(parts[i]) && ',' !in parts[i]
    ensures GetSizesList(Join(parts, ',')) == Some(parts)
  {
    SplitJoin(parts, ',');
    TrimEachOfTrimmed(parts);
  }

  /** Worked case: spaces around the sizes go. */
  lemma SizesExampleSpaces()
    ensures GetSizesList("S, M ,L") == Some(["S", "M", "L"])
  {
    var pieces := Split("S, M ,L", ',');
    assert pieces == ["S", " M ", "L"] by {
      SplitSizesExample();
    }
    TrimEachExample();
    assert pieces == [pieces[0], pieces[1], pieces[2]];
  }

  lemma TrimEachExample()
    ensures TrimEach(["S", " M ", "L"]) == ["S", "M", "L"]
  {
    TrimWorkedPieces("S", " M ", "L");
  }

  /** The three pieces of the worked case, trimmed one by one. */
  lemma TrimWorkedPieces(a: string, b: string, c: string)
    requires a == "S" && b == " M " && c == "L"
    ensures TrimEach([a, b, c]) == ["S", "M", "L"]
  {
    assert Trim(a) == a by { TrimOfLetter(a); }
    assert Trim(b) == "M" by { TrimOfSpacedM(b); }
    assert Trim(c) == c by { TrimOfLetter(c); }
    TrimEachOfThree([a, b, c], a, "M", c);
  }

  /** Three pieces are trimmed one by one. */
  lemma {:induction false} TrimEachOfThree(pieces: seq<string>, x: string, y: string, z: string)
    requires |pieces| == 3
    requires Trim(pieces[0]) == x && Trim(pieces[1]) == y && Trim(pieces[2]) == z
    ensures TrimEach(pieces) == [x, y, z]
  {
    TrimEachOfThreeFields(pieces);
  }

  lemma {:induction false} TrimEachOfThreeFields(pieces: seq<string>)
    requires |pieces| == 3
    ensures TrimEach(pieces) == [Trim(pieces[0]), Trim(pieces[1]), Trim(pieces[2])]
  {
  }

  /** A single non-blank character is already trimmed. */
  lemma TrimOfLetter(s: string)
    requires |s| == 1 && !IsWhitespace(s[0])
    ensures Trim(s) == s
  {
    TrimOfTrimmed(s);
  }

  lemma TrimSpacedExample()
    ensures Trim(" M ") == "M"
  {
    TrimOfSpacedM(" M ");
  }

  /** ` M ` loses one space at each end. */
  lemma TrimOfSpacedM(b: string)
    requires b == " M "
    ensures Trim(b) == "M"
  {
    assert b[1..] == "M ";
    assert TrimStart(b) == "M ";
    assert "M "[..1] == "M";
    assert TrimEnd("M ") == "M";
  }

  lemma SplitSizesExample()
    ensures Split("S, M ,L", ',') == ["S", " M ", "L"]
  {
    assert "L"[1..] == "";
    assert ['L'] + "" == "L";
    assert Split("L", ',') == ["L"];
    assert ",L"[1..] == "L";
    assert Split(",L", ',') == ["", "L"];
    assert " ,L"[1..] == ",L";
    assert [' '] + "" == " ";
    assert Split(" ,L", ',') == [" ", "L"];
    assert "M ,L"[1..] == " ,L";
    assert ['M'] + " " == "M ";
    assert Split("M ,L", ',') == ["M ", "L"];
    assert " M ,L"[1..] == "M ,L";
    assert [' '] + "M " == " M ";
    assert Split(" M ,L", ',') == [" M ", "L"];
    assert ", M ,L"[1..] == " M ,L";
    assert Split(", M ,L", ',') == ["", " M ", "L"];
    assert "S, M ,L"[1..] == ", M ,L";
    assert ['S'] + "" == "S";
    assert Split("S, M ,L", ',') == ["S", " M ", "L"];
  }

  /** Worked cases: a lone comma gives two empty sizes; the empty field
      gives no list. */
  lemma SizesExampleEmptyPieces()
    ensures GetSizesList(",") == Some(["", ""])
    ensures GetSizesList("") == None
  {
    assert Split(",", ',') == [[], []] by {
      assert ","[1..] == [];
    }
    assert Trim("") == "";
    var r := GetSizesList(",").value;
    assert |r| == 2 && r[0] == "" && r[1] == "";
    assert r == ["", ""];
  }

  /** The record `saveProducts` builds: trimmed text fields, the sizes parsed
      from the trimmed size field, and the colors and URLs as given. */
  function BuildProduct(id: string, form: Form, colors: seq<Int32>, imageUrls: seq<Url>): (p: Product)
    ensures p.id == id
    ensures p.name == Trim(form.name) && p.category == Trim(form.category) && p.price == Trim(form.price)
    ensures p.offerPercentage == Trim(form.offerPercentage) && p.description == Trim(form.description)
    ensures p.sizes == GetSizesList(Trim(form.sizes))
    ensures p.sizes.None? <==> Blank(form.sizes)
    ensures Trimmed(p.name) && Trimmed(p.category) && Trimmed(p.price)
    ensures p.colors == colors && p.imageUrls == imageUrls
  {
    Product(id, Trim(form.name), Trim(form.category), Trim(form.price), Trim(form.offerPercentage),
            Trim(form.description), colors, GetSizesList(Trim(form.sizes)), imageUrls)
  }
}
