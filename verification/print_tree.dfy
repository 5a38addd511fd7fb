/** PrintTree (DungeonSpace.cpp:209-218): the in-order listing of the node keys, each
    written in decimal (FString::FromInt) and followed by one space. The listing can be
    read back: splitting it at the spaces and parsing each word gives the keys. */
module TreeText {
  import opened DungeonTypes
  import opened Partition

  // ------------------------------------------------------------ numbers

  predicate IsDigit(c: char)
  {
    '0' <= c <= '9'
  }

  function DigitChar(d: int): (c: char)
    requires 0 <= d < 10
    ensures IsDigit(c) && c as int - '0' as int == d
  {
    (d + '0' as int) as char
  }

  /** The decimal digits of n, most significant first, without leading zeros. */
  function Digits(n: nat): (s: string)
    ensures |s| > 0 && forall j :: 0 <= j < |s| ==> IsDigit(s[j])
  {
    if n < 10 then [DigitChar(n)] else Digits(n / 10) + [DigitChar(n % 10)]
  }

  /** FString::FromInt: an optional minus sign and the decimal digits. */
  function FromInt(n: int): (s: string)
    ensures |s| > 0 && forall j :: 0 <= j < |s| ==> s[j] != ' '
  {
    if n < 0 then "-" + Digits(-n) else Digits(n)
  }

  function ParseDigits(s: string): nat
    requires forall j :: 0 <= j < |s| ==> IsDigit(s[j])
  {
    if s == [] then 0
    else
      assert IsDigit(s[|s| - 1]);
      10 * ParseDigits(s[..|s| - 1]) + (s[|s| - 1] as int - '0' as int)
  }

  function ParseInt(s: string): int
  {
    if |s| > 0 && s[0] == '-' && forall j :: 1 <= j < |s| ==> IsDigit(s[j]) then
      -(ParseDigits(s[1..]) as int)
    else if forall j :: 0 <= j < |s| ==> IsDigit(s[j]) then
      ParseDigits(s)
    else
      0
  }

  lemma {:induction false} DigitsRoundTrip(n: nat)
    ensures ParseDigits(Digits(n)) == n
  {
    if n >= 10 {
      var s := Digits(n);
      DigitsRoundTrip(n / 10);
      assert s[..|s| - 1] == Digits(n / 10);
    }
  }

  /** Reading back the decimal form of an integer gives the integer. */
  lemma FromIntRoundTrip(n: int)
    ensures ParseInt(FromInt(n)) == n
  {
    DigitsRoundTrip(if n < 0 then -n else n);
    if n < 0 {
      assert FromInt(n)[1..] == Digits(-n);
    } else {
      assert FromInt(n)[0] != '-';
    }
  }

  // ------------------------------------------------------------ listings

  /** The keys of a tree, left subtree first, then the node, then the right subtree. */
  function InOrderKeys(t: Space): (ks: seq<int>)
    ensures |ks| == 0 <==> t.Nil?
  {
    if t.Nil? then [] else InOrderKeys(t.left) + [t.data.key] + InOrderKeys(t.right)
  }

  /** The in-order listing holds exactly the node keys. */
  lemma {:induction false} InOrderKeysAreNodeKeys(t: Space)
    ensures forall k :: k in InOrderKeys(t) <==> k in NodeKeys(t)
  {
    if t.Node? {
      InOrderKeysAreNodeKeys(t.left);
      InOrderKeysAreNodeKeys(t.right);
    }
  }

  /** Each key in decimal followed by one space. */
  function Render(ks: seq<int>): string
  {
    if ks == [] then "" else FromInt(ks[0]) + " " + Render(ks[1..])
  }

  /** PrintTree(string, root): appends the listing of the tree to `text`. */
  function PrintTree(text: string, t: Space): (r: string)
    ensures |r| >= |text| && r[..|text|] == text
    decreases t
  {
    if t.Nil? then text
    else PrintTree(PrintTree(text, t.left) + FromInt(t.data.key) + " ", t.right)
  }

  lemma {:induction false} RenderAppend(a: seq<int>, b: seq<int>)
    ensures Render(a + b) == Render(a) + Render(b)
  {
    if a == [] {
      assert a + b == b;
    } else {
      assert (a + b)[1..] == a[1..] + b;
      RenderAppend(a[1..], b);
    }
  }

  /** PrintTree appends the rendering of the in-order keys. */
  lemma {:induction false} PrintTreeRenders(text: string, t: Space)
    ensures PrintTree(text, t) == text + Render(InOrderKeys(t))
    decreases t
  {
    if t.Node? {
      var l, k, r := InOrderKeys(t.left), t.data.key, InOrderKeys(t.right);
      PrintTreeRenders(text, t.left);
      PrintTreeRenders(PrintTree(text, t.left) + FromInt(k) + " ", t.right);
      RenderNode(l, k, r);
    }
  }

  lemma RenderNode(l: seq<int>, k: int, r: seq<int>)
    ensures Render(l + [k] + r) == Render(l) + FromInt(k) + " " + Render(r)
  {
    assert Render([k]) == FromInt(k) + " " + Render([]);
    RenderAppend(l, [k]);
    RenderAppend(l + [k], r);
  }

  /** The position of the first space in s, or |s| when there is none. */
  function SpaceAt(s: string): (i: nat)
    ensures i <= |s| && (i < |s| ==> s[i] == ' ')
    ensures forall j :: 0 <= j < i ==> s[j] != ' '
  {
    if s == [] || s[0] == ' ' then 0 else 1 + SpaceAt(s[1..])
  }

  /** Splits a listing at its spaces and parses each word. */
  function ParseListing(s: string): seq<int>
    decreases |s|
  {
    if s == [] then []
    else
      var i := SpaceAt(s);
      if i == |s| then [ParseInt(s)] else [ParseInt(s[..i])] + ParseListing(s[i + 1..])
  }

  lemma SpaceAfterWord(w: string, rest: string)
    requires forall j :: 0 <= j < |w| ==> w[j] != ' '
    ensures SpaceAt(w + " " + rest) == |w|
    decreases |w|
  {
    if w != [] {
      assert (w + " " + rest)[1..] == w[1..] + " " + rest;
      SpaceAfterWord(w[1..], rest);
    }
  }

  /** Reading back a rendering gives the keys rendered. */
  lemma {:induction false} ParseRender(ks: seq<int>)
    ensures ParseListing(Render(ks)) == ks
  {
    if ks != [] {
      var w, rest := FromInt(ks[0]), Render(ks[1..]);
      var s := w + " " + rest;
      SpaceAfterWord(w, rest);
      assert s[..|w|] == w && s[|w| + 1..] == rest;
      FromIntRoundTrip(ks[0]);
      ParseRender(ks[1..]);
    }
  }

  /** The text PrintTree appends to an empty string reads back as the in-order keys. */
  lemma PrintTreeRoundTrip(t: Space)
    ensures ParseListing(PrintTree("", t)) == InOrderKeys(t)
  {
    PrintTreeRenders("", t);
    ParseRender(InOrderKeys(t));
  }
}
