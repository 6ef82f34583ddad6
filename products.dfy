/**
  The four products of the vending machine: `NOODLE_MAP` (display name to
  dispense command, in declaration order), the reverse map built from it by a
  dictionary comprehension, and the sentence every reply of the resolvers is
  built on, "I'll prepare <name> for you! <tail>".
 */
module Products {
  import opened Wrappers
  import opened Text

  datatype Product = Product(name: string, code: string)

  const HotSpicyRamen := Product("Hot Spicy Ramen", "noodle_1")
  const ChickenNoodles := Product("Chicken Noodles", "noodle_2")
  const CheeseNoodles := Product("Cheese Noodles", "noodle_3")
  const VegClearSoup := Product("Veg Clear Soup", "noodle_4")

  /** `NOODLE_MAP` as its entries in declaration order: iteration order matters
      to the order dispatcher, which takes the first name it finds. */
  const NoodleMap: seq<Product> := [HotSpicyRamen, ChickenNoodles, CheeseNoodles, VegClearSoup]

  /** The dictionary a list of entries builds; a later entry overwrites an
      earlier one with the same key, as in a Python dict display. */
  function NameToCode(entries: seq<Product>): (m: map<string, string>)
    ensures forall i :: 0 <= i < |entries| ==> entries[i].name in m
    ensures |m| <= |entries|
  {
    if entries == [] then map[]
    else NameToCode(entries[..|entries| - 1])[entries[|entries| - 1].name := entries[|entries| - 1].code]
  }

  /** `{v: k for k, v in entries}`: the comprehension that builds `NOODLE_REVERSE_MAP`. */
  function CodeToName(entries: seq<Product>): (m: map<string, string>)
    ensures forall i :: 0 <= i < |entries| ==> entries[i].code in m
    ensures |m| <= |entries|
  {
    if entries == [] then map[]
    else CodeToName(entries[..|entries| - 1])[entries[|entries| - 1].code := entries[|entries| - 1].name]
  }

  function NoodleCodes(): map<string, string> {
    NameToCode(NoodleMap)
  }

  function NoodleNames(): map<string, string> {
    CodeToName(NoodleMap)
  }

  ghost predicate DistinctNames(entries: seq<Product>) {
    forall i, j :: 0 <= i < j < |entries| ==> entries[i].name != entries[j].name
  }

  ghost predicate DistinctCodes(entries: seq<Product>) {
    forall i, j :: 0 <= i < j < |entries| ==> entries[i].code != entries[j].code
  }

  /** With distinct names, the dictionary maps each entry's name to that
      entry's code and holds no other key. */
  lemma {:induction false} NameToCodeHolds(entries: seq<Product>)
    requires DistinctNames(entries)
    ensures forall i :: 0 <= i < |entries| ==>
              entries[i].name in NameToCode(entries) && NameToCode(entries)[entries[i].name] == entries[i].code
    ensures forall k :: k in NameToCode(entries) ==> exists i :: 0 <= i < |entries| && entries[i].name == k
  {
    if entries != [] {
      var init := entries[..|entries| - 1];
      NameToCodeHolds(init);
      forall k | k in NameToCode(entries)
        ensures exists i :: 0 <= i < |entries| && entries[i].name == k
      {
        if k != entries[|entries| - 1].name {
          assert k in NameToCode(init);
          var i :| 0 <= i < |init| && init[i].name == k;
          assert entries[i].name == k;
        }
      }
    }
  }

  /** With distinct codes, the reverse dictionary maps each entry's code to that
      entry's name and holds no other key. */
  lemma {:induction false} CodeToNameHolds(entries: seq<Product>)
    requires DistinctCodes(entries)
    ensures forall i :: 0 <= i < |entries| ==>
              entries[i].code in CodeToName(entries) && CodeToName(entries)[entries[i].code] == entries[i].name
    ensures forall k :: k in CodeToName(entries) ==> exists i :: 0 <= i < |entries| && entries[i].code == k
  {
    if entries != [] {
      var init := entries[..|entries| - 1];
      CodeToNameHolds(init);
      forall k | k in CodeToName(entries)
        ensures exists i :: 0 <= i < |entries| && entries[i].code == k
      {
        if k != entries[|entries| - 1].code {
          assert k in CodeToName(init);
          var i :| 0 <= i < |init| && init[i].code == k;
          assert entries[i].code == k;
        }
      }
    }
  }

  /** `NOODLE_REVERSE_MAP` is the exact inverse of `NOODLE_MAP`: the four codes are
      distinct, and name to code to name and code to name to code both round-trip. */
  lemma ReverseMapInverts()
    ensures DistinctCodes(NoodleMap)
    ensures forall name :: name in NoodleCodes() ==>
              NoodleCodes()[name] in NoodleNames() && NoodleNames()[NoodleCodes()[name]] == name
    ensures forall code :: code in NoodleNames() ==>
              NoodleNames()[code] in NoodleCodes() && NoodleCodes()[NoodleNames()[code]] == code
  {
    assert DistinctNames(NoodleMap) && DistinctCodes(NoodleMap);
    NameToCodeHolds(NoodleMap);
    CodeToNameHolds(NoodleMap);
  }

  /** Both dictionaries agree with the entries of `NOODLE_MAP`. */
  lemma NoodleMapsHoldEntries(i: nat)
    requires i < |NoodleMap|
    ensures NoodleMap[i].name in NoodleCodes() && NoodleCodes()[NoodleMap[i].name] == NoodleMap[i].code
    ensures NoodleMap[i].code in NoodleNames() && NoodleNames()[NoodleMap[i].code] == NoodleMap[i].name
  {
    assert DistinctNames(NoodleMap) && DistinctCodes(NoodleMap);
    NameToCodeHolds(NoodleMap);
    CodeToNameHolds(NoodleMap);
  }

  // ---------------------------------------------------------------------------
  // Replies

  /** "I'll prepare <name> for you! <tail>": the one sentence shape of every
      reply the resolvers produce, and of the prefix `get_ai_reply` adds to a
      generated reply. */
  function Offer(name: string, tail: string): string {
    "I'll prepare " + name + " for you! " + tail
  }

  /** The reply names the product, compared case-insensitively as the order
      dispatcher does (`noodle_name.lower() in ai_reply.lower()`). */
  predicate Names(reply: string, p: Product) {
    Contains(Lower(reply), Lower(p.name))
  }

  /** An offer names its own product, and starts with "I'll prepare". */
  lemma OfferNames(p: Product, tail: string)
    ensures Names(Offer(p.name, tail), p)
    ensures StartsWith(Offer(p.name, tail), "I'll prepare")
  {
    ContainsLower("I'll prepare ", p.name, " for you! " + tail);
    assert Offer(p.name, tail) == "I'll prepare " + p.name + (" for you! " + tail);
    assert Offer(p.name, tail)[..12] == "I'll prepare";
  }

  /** A letter missing, in both cases, from the product name, the sentence after
      it and the template ("ilpreafoyu" are the template's letters) is missing
      from the lowered offer. */
  lemma OfferLacks(name: string, tail: string, c: char)
    requires 'a' <= c <= 'z' && c !in "ilpreafoyu"
    requires LacksLetter(name, c) && LacksLetter(tail, c)
    ensures Lacks(Lower(Offer(name, tail)), c)
  {
    var front, middle := "I'll prepare ", " for you! ";
    assert LacksLetter(front, c) && LacksLetter(middle, c);
    LacksAppend(front, name, c);
    LacksAppend(front, name, UpperChar(c));
    LowerLacksPieces(front + name, middle, tail, c);
  }

  /** Letters `x`, `y` that are never adjacent in the name or the sentence after
      it and whose capitals occur in neither are never adjacent in the lowered
      offer, provided the template lacks `x` and neither is "i" (the template's
      one capital is "I"). */
  lemma OfferLacksPair(name: string, tail: string, x: char, y: char)
    requires 'a' <= x <= 'z' && 'a' <= y <= 'z' && x !in "ilpreafoyu" && y != 'i'
    requires LacksPair(name, x, y) && LacksPair(tail, x, y)
    requires Lacks(name, UpperChar(x)) && Lacks(name, UpperChar(y))
    requires Lacks(tail, UpperChar(x)) && Lacks(tail, UpperChar(y))
    ensures LacksPair(Lower(Offer(name, tail)), x, y)
  {
    var front, middle := "I'll prepare ", " for you! ";
    var X, Y := UpperChar(x), UpperChar(y);
    assert Lacks(front, x) && Lacks(middle, x);
    assert Lacks(front, X) && Lacks(middle, X) && Lacks(front, Y) && Lacks(middle, Y);
    LacksGivesLacksPair(front, x, y);
    LacksGivesLacksPair(middle, x, y);
    LacksPairAppend(front, name, x, y);
    LacksPairAppend(front + name, middle, x, y);
    LacksPairAppend(front + name + middle, tail, x, y);
    LacksAppend(front, name, X);
    LacksAppend(front + name, middle, X);
    LacksAppend(front + name + middle, tail, X);
    LacksAppend(front, name, Y);
    LacksAppend(front + name, middle, Y);
    LacksAppend(front + name + middle, tail, Y);
    LowerLacksPair(Offer(name, tail), x, y);
  }

  // ---------------------------------------------------------------------------
  // The letters of each name

  /** "hotspicyramen" are the letters of "Hot Spicy Ramen", in lowercase. */
  lemma HotSpicyRamenLacks(c: char)
    requires 'a' <= c <= 'z' && c !in "hotspicyramen"
    ensures LacksLetter(HotSpicyRamen.name, c)
  {
  }

  /** "chikenodls" are the letters of "Chicken Noodles", in lowercase. */
  lemma ChickenNoodlesLacks(c: char)
    requires 'a' <= c <= 'z' && c !in "chikenodls"
    ensures LacksLetter(ChickenNoodles.name, c)
  {
  }

  /** "chesnodl" are the letters of "Cheese Noodles", in lowercase. */
  lemma CheeseNoodlesLacks(c: char)
    requires 'a' <= c <= 'z' && c !in "chesnodl"
    ensures LacksLetter(CheeseNoodles.name, c)
  {
  }

  /** "vegclarsoup" are the letters of "Veg Clear Soup", in lowercase. */
  lemma VegClearSoupLacks(c: char)
    requires 'a' <= c <= 'z' && c !in "vegclarsoup"
    ensures LacksLetter(VegClearSoup.name, c)
  {
  }

  // ---------------------------------------------------------------------------
  // Finding a product name in a text

  /** The four display names, lowercased, in `NOODLE_MAP` order. */
  function LowerNames(): (r: seq<string>)
    ensures |r| == |NoodleMap|
    ensures forall i :: 0 <= i < |r| ==> r[i] == Lower(NoodleMap[i].name)
  {
    seq(|NoodleMap|, i requires 0 <= i < |NoodleMap| => Lower(NoodleMap[i].name))
  }

  /** The first product, in `NOODLE_MAP` order, whose lowercased name occurs in
      an already lowercased text. */
  function FirstNamed(lowerText: string): (r: Option<Product>)
    ensures r.Some? ==> r.value in NoodleMap && Contains(lowerText, Lower(r.value.name))
    ensures r.None? ==> forall i :: 0 <= i < |NoodleMap| ==> !Contains(lowerText, Lower(NoodleMap[i].name))
  {
    match FirstOccurring(lowerText, LowerNames(), 0)
    case Some(i) => Some(NoodleMap[i])
    case None => None
  }

  /** `FirstNamed` picks the product at the earliest position of `NOODLE_MAP`
      whose name occurs, and picks nothing exactly when no name occurs. */
  lemma FirstNamedIsFirst(lowerText: string, p: Product)
    ensures FirstNamed(lowerText) == Some(p) <==>
              exists i :: 0 <= i < |NoodleMap| && NoodleMap[i] == p && Contains(lowerText, Lower(p.name))
                          && forall j :: 0 <= j < i ==> !Contains(lowerText, Lower(NoodleMap[j].name))
    ensures FirstNamed(lowerText) == None <==>
              forall q :: q in NoodleMap ==> !Contains(lowerText, Lower(q.name))
  {
    var names := LowerNames();
    var r := FirstOccurring(lowerText, names, 0);
    if exists i :: 0 <= i < |NoodleMap| && NoodleMap[i] == p && Contains(lowerText, Lower(p.name))
                   && forall j :: 0 <= j < i ==> !Contains(lowerText, Lower(NoodleMap[j].name)) {
      var i :| 0 <= i < |NoodleMap| && NoodleMap[i] == p && Contains(lowerText, Lower(p.name))
               && forall j :: 0 <= j < i ==> !Contains(lowerText, Lower(NoodleMap[j].name));
      assert Contains(lowerText, names[i]);
      assert r == Some(i);
    }
    if FirstNamed(lowerText) == None {
      forall q | q in NoodleMap ensures !Contains(lowerText, Lower(q.name)) {
        var i :| 0 <= i < |NoodleMap| && NoodleMap[i] == q;
        assert !Contains(lowerText, names[i]);
      }
    }
  }

  /** A text naming exactly one product, `p`, has `p` picked from it. */
  lemma FirstNamedOnly(lowerText: string, p: Product)
    requires p in NoodleMap
    requires forall q :: q in NoodleMap ==> (Contains(lowerText, Lower(q.name)) <==> q == p)
    ensures FirstNamed(lowerText) == Some(p)
  {
    var names := LowerNames();
    var i :| 0 <= i < |NoodleMap| && NoodleMap[i] == p;
    assert Contains(lowerText, names[i]);
    forall j | 0 <= j < i ensures !Contains(lowerText, names[j]) {
      assert NoodleMap[j] != p;
    }
    assert FirstOccurring(lowerText, names, 0) == Some(i);
  }
}
