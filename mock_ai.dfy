/**
  The keyword resolver the backend falls back on when the language-model module
  cannot be imported: an if/elif chain of substring tests over the lowercased
  message, each branch answering with one fixed reply.
 */
module MockAi {
  import opened Text
  import opened Products

  const SpicyTail := "This is our spiciest option."
  const ChickenTail := "This has tender chicken pieces."
  const CheeseTail := "This is our creamiest option."
  const VegTail := "This is a light vegetarian soup."
  const TestTail := "This is our test option."
  const PopularTail := "This is our most popular option."

  const SpicyReply := Offer(HotSpicyRamen.name, SpicyTail)
  const ChickenReply := Offer(ChickenNoodles.name, ChickenTail)
  const CheeseReply := Offer(CheeseNoodles.name, CheeseTail)
  const VegReply := Offer(VegClearSoup.name, VegTail)
  const TestReply := Offer(HotSpicyRamen.name, TestTail)
  const PopularReply := Offer(HotSpicyRamen.name, PopularTail)

  predicate HotWord(lower: string) { Contains(lower, "spicy") || Contains(lower, "hot") }
  predicate ChickenWord(lower: string) { Contains(lower, "chicken") }
  predicate CheeseWord(lower: string) { Contains(lower, "cheese") || Contains(lower, "creamy") }
  predicate VegWord(lower: string) {
    Contains(lower, "vegetarian") || Contains(lower, "veg") || Contains(lower, "light")
  }
  predicate TestWord(lower: string) { Contains(lower, "test") }

  /** The fallback `get_ai_reply`: the first branch whose keyword occurs in the
      lowercased message answers. Every reply is an offer of the product the
      keyword precedence picks. */
  function MockReply(userMessage: string): (r: string)
    ensures exists tail :: r == Offer(MockProduct(Lower(userMessage)).name, tail)
  {
    var lower := Lower(userMessage);
    if HotWord(lower) then
      assert MockProduct(lower) == HotSpicyRamen;
      assert SpicyReply == Offer(HotSpicyRamen.name, SpicyTail);
      SpicyReply
    else if ChickenWord(lower) then
      assert MockProduct(lower) == ChickenNoodles;
      assert ChickenReply == Offer(ChickenNoodles.name, ChickenTail);
      ChickenReply
    else if CheeseWord(lower) then
      assert MockProduct(lower) == CheeseNoodles;
      assert CheeseReply == Offer(CheeseNoodles.name, CheeseTail);
      CheeseReply
    else if VegWord(lower) then
      assert MockProduct(lower) == VegClearSoup;
      assert VegReply == Offer(VegClearSoup.name, VegTail);
      VegReply
    else if TestWord(lower) then
      assert MockProduct(lower) == HotSpicyRamen;
      assert TestReply == Offer(HotSpicyRamen.name, TestTail);
      TestReply
    else
      assert MockProduct(lower) == HotSpicyRamen;
      assert PopularReply == Offer(HotSpicyRamen.name, PopularTail);
      PopularReply
  }

  /** The product the chain recommends, read off the keyword groups by their
      precedence; the test word and the final branch both fall to Hot Spicy Ramen. */
  function MockProduct(lower: string): (p: Product)
    ensures p in NoodleMap
  {
    if !HotWord(lower) && ChickenWord(lower) then ChickenNoodles
    else if !HotWord(lower) && CheeseWord(lower) then CheeseNoodles
    else if !HotWord(lower) && VegWord(lower) then VegClearSoup
    else HotSpicyRamen
  }

  /** "spicy" or "hot" anywhere in the message, in any letter case, wins over
      every keyword of the later branches. */
  lemma MockHotFirst(userMessage: string)
    requires HotWord(Lower(userMessage))
    ensures MockReply(userMessage) == SpicyReply
    ensures Names(MockReply(userMessage), HotSpicyRamen)
  {
    OfferNames(HotSpicyRamen, SpicyTail);
  }

  /** A message matching no branch still gets a Hot Spicy Ramen reply. */
  lemma MockUnmatchedIsHot(userMessage: string)
    requires var lower := Lower(userMessage);
             !HotWord(lower) && !ChickenWord(lower) && !CheeseWord(lower) && !VegWord(lower) && !TestWord(lower)
    ensures MockReply(userMessage) == PopularReply
    ensures Names(MockReply(userMessage), HotSpicyRamen)
  {
    OfferNames(HotSpicyRamen, PopularTail);
  }

  /** Matching ignores letter case: messages equal up to case get the same reply. */
  lemma MockIgnoresCase(m1: string, m2: string)
    requires Lower(m1) == Lower(m2)
    ensures MockReply(m1) == MockReply(m2)
  {
  }

  // ---------------------------------------------------------------------------
  // Every reply names exactly one product

  /** A letter that occurs in neither case in the template, in Hot Spicy Ramen or in
      its sentence is missing from the lowered `SpicyReply`. */
  lemma SpicyReplyLacks(c: char)
    requires 'a' <= c <= 'z' && c !in "ilpreafoyu" && c !in "hotspicyramen" && c !in "thisourpcen"
    ensures Lacks(Lower(SpicyReply), c)
  {
    HotSpicyRamenLacks(c);
    assert LacksLetter(SpicyTail, c);
    OfferLacks(HotSpicyRamen.name, SpicyTail, c);
  }

  lemma SpicyReplyLacksChicken()
    ensures !Names(SpicyReply, ChickenNoodles)
  {
    SpicyReplyLacks('k');
    AbsentByChar(Lower(SpicyReply), Lower(ChickenNoodles.name), 4, 'k');
  }

  lemma SpicyReplyLacksCheese()
    ensures !Names(SpicyReply, CheeseNoodles)
  {
    SpicyReplyLacks('d');
    AbsentByChar(Lower(SpicyReply), Lower(CheeseNoodles.name), 10, 'd');
  }

  lemma SpicyReplyLacksVeg()
    ensures !Names(SpicyReply, VegClearSoup)
  {
    SpicyReplyLacks('v');
    AbsentByChar(Lower(SpicyReply), Lower(VegClearSoup.name), 0, 'v');
  }

  /** `SpicyReply` names Hot Spicy Ramen and none of the other three products. */
  lemma SpicyReplyNamesOnly(q: Product)
    requires q in NoodleMap
    ensures Names(SpicyReply, q) <==> q == HotSpicyRamen
  {
    if q == HotSpicyRamen {
      OfferNames(HotSpicyRamen, SpicyTail);
    } else if q == ChickenNoodles {
      SpicyReplyLacksChicken();
    } else if q == CheeseNoodles {
      SpicyReplyLacksCheese();
    } else {
      SpicyReplyLacksVeg();
    }
  }

  /** A letter that occurs in neither case in the template, in Chicken Noodles or in
      its sentence is missing from the lowered `ChickenReply`. */
  lemma ChickenReplyLacks(c: char)
    requires 'a' <= c <= 'z' && c !in "ilpreafoyu" && c !in "chikenodls" && c !in "thisaendrckp"
    ensures Lacks(Lower(ChickenReply), c)
  {
    ChickenNoodlesLacks(c);
    assert LacksLetter(ChickenTail, c);
    OfferLacks(ChickenNoodles.name, ChickenTail, c);
  }

  lemma ChickenReplyLacksHot()
    ensures !Names(ChickenReply, HotSpicyRamen)
  {
    ChickenReplyLacks('m');
    AbsentByChar(Lower(ChickenReply), Lower(HotSpicyRamen.name), 12, 'm');
  }

  lemma ChickenReplyLacksVeg()
    ensures !Names(ChickenReply, VegClearSoup)
  {
    ChickenReplyLacks('v');
    AbsentByChar(Lower(ChickenReply), Lower(VegClearSoup.name), 0, 'v');
  }

  lemma ChickenPiecesLackHe()
    ensures LacksPair(ChickenNoodles.name, 'h', 'e') && LacksPair(ChickenTail, 'h', 'e')
  {
  }

  lemma ChickenPiecesLackCapitalHE()
    ensures Lacks(ChickenNoodles.name, 'H') && Lacks(ChickenNoodles.name, 'E')
    ensures Lacks(ChickenTail, 'H') && Lacks(ChickenTail, 'E')
  {
  }

  lemma ChickenReplyLacksCheese()
    ensures !Names(ChickenReply, CheeseNoodles)
  {
    ChickenPiecesLackHe();
    ChickenPiecesLackCapitalHE();
    OfferLacksPair(ChickenNoodles.name, ChickenTail, 'h', 'e');
    AbsentByPair(Lower(ChickenReply), Lower(CheeseNoodles.name), 1, 'h', 'e');
  }

  /** `ChickenReply` names Chicken Noodles and none of the other three products. */
  lemma ChickenReplyNamesOnly(q: Product)
    requires q in NoodleMap
    ensures Names(ChickenReply, q) <==> q == ChickenNoodles
  {
    if q == ChickenNoodles {
      OfferNames(ChickenNoodles, ChickenTail);
    } else if q == HotSpicyRamen {
      ChickenReplyLacksHot();
    } else if q == CheeseNoodles {
      ChickenReplyLacksCheese();
    } else {
      ChickenReplyLacksVeg();
    }
  }

  /** A letter that occurs in neither case in the template, in Cheese Noodles or in
      its sentence is missing from the lowered `CheeseReply`. */
  lemma CheeseReplyLacks(c: char)
    requires 'a' <= c <= 'z' && c !in "ilpreafoyu" && c !in "chesnodl" && c !in "thisourceampn"
    ensures Lacks(Lower(CheeseReply), c)
  {
    CheeseNoodlesLacks(c);
    assert LacksLetter(CheeseTail, c);
    OfferLacks(CheeseNoodles.name, CheeseTail, c);
  }

  lemma CheeseReplyLacksChicken()
    ensures !Names(CheeseReply, ChickenNoodles)
  {
    CheeseReplyLacks('k');
    AbsentByChar(Lower(CheeseReply), Lower(ChickenNoodles.name), 4, 'k');
  }

  lemma CheeseReplyLacksVeg()
    ensures !Names(CheeseReply, VegClearSoup)
  {
    CheeseReplyLacks('v');
    AbsentByChar(Lower(CheeseReply), Lower(VegClearSoup.name), 0, 'v');
  }

  lemma CheesePiecesLackHo()
    ensures LacksPair(CheeseNoodles.name, 'h', 'o') && LacksPair(CheeseTail, 'h', 'o')
  {
  }

  lemma CheesePiecesLackCapitalHO()
    ensures Lacks(CheeseNoodles.name, 'H') && Lacks(CheeseNoodles.name, 'O')
    ensures Lacks(CheeseTail, 'H') && Lacks(CheeseTail, 'O')
  {
  }

  lemma CheeseReplyLacksHot()
    ensures !Names(CheeseReply, HotSpicyRamen)
  {
    CheesePiecesLackHo();
    CheesePiecesLackCapitalHO();
    OfferLacksPair(CheeseNoodles.name, CheeseTail, 'h', 'o');
    AbsentByPair(Lower(CheeseReply), Lower(HotSpicyRamen.name), 0, 'h', 'o');
  }

  /** `CheeseReply` names Cheese Noodles and none of the other three products. */
  lemma CheeseReplyNamesOnly(q: Product)
    requires q in NoodleMap
    ensures Names(CheeseReply, q) <==> q == CheeseNoodles
  {
    if q == CheeseNoodles {
      OfferNames(CheeseNoodles, CheeseTail);
    } else if q == HotSpicyRamen {
      CheeseReplyLacksHot();
    } else if q == ChickenNoodles {
      CheeseReplyLacksChicken();
    } else {
      CheeseReplyLacksVeg();
    }
  }

  /** A letter that occurs in neither case in the template, in Veg Clear Soup or in
      its sentence is missing from the lowered `VegReply`. */
  lemma VegReplyLacks(c: char)
    requires 'a' <= c <= 'z' && c !in "ilpreafoyu" && c !in "vegclarsoup" && c !in "thisalgvernoup"
    ensures Lacks(Lower(VegReply), c)
  {
    VegClearSoupLacks(c);
    assert LacksLetter(VegTail, c);
    OfferLacks(VegClearSoup.name, VegTail, c);
  }

  lemma VegReplyLacksHot()
    ensures !Names(VegReply, HotSpicyRamen)
  {
    VegReplyLacks('m');
    AbsentByChar(Lower(VegReply), Lower(HotSpicyRamen.name), 12, 'm');
  }

  lemma VegReplyLacksChicken()
    ensures !Names(VegReply, ChickenNoodles)
  {
    VegReplyLacks('k');
    AbsentByChar(Lower(VegReply), Lower(ChickenNoodles.name), 4, 'k');
  }

  lemma VegReplyLacksCheese()
    ensures !Names(VegReply, CheeseNoodles)
  {
    VegReplyLacks('d');
    AbsentByChar(Lower(VegReply), Lower(CheeseNoodles.name), 10, 'd');
  }

  /** `VegReply` names Veg Clear Soup and none of the other three products. */
  lemma VegReplyNamesOnly(q: Product)
    requires q in NoodleMap
    ensures Names(VegReply, q) <==> q == VegClearSoup
  {
    if q == VegClearSoup {
      OfferNames(VegClearSoup, VegTail);
    } else if q == HotSpicyRamen {
      VegReplyLacksHot();
    } else if q == ChickenNoodles {
      VegReplyLacksChicken();
    } else {
      VegReplyLacksCheese();
    }
  }

  /** A letter that occurs in neither case in the template, in Hot Spicy Ramen or in
      its sentence is missing from the lowered `TestReply`. */
  lemma TestReplyLacks(c: char)
    requires 'a' <= c <= 'z' && c !in "ilpreafoyu" && c !in "hotspicyramen" && c !in "thisourepn"
    ensures Lacks(Lower(TestReply), c)
  {
    HotSpicyRamenLacks(c);
    assert LacksLetter(TestTail, c);
    OfferLacks(HotSpicyRamen.name, TestTail, c);
  }

  lemma TestReplyLacksChicken()
    ensures !Names(TestReply, ChickenNoodles)
  {
    TestReplyLacks('k');
    AbsentByChar(Lower(TestReply), Lower(ChickenNoodles.name), 4, 'k');
  }

  lemma TestReplyLacksCheese()
    ensures !Names(TestReply, CheeseNoodles)
  {
    TestReplyLacks('d');
    AbsentByChar(Lower(TestReply), Lower(CheeseNoodles.name), 10, 'd');
  }

  lemma TestReplyLacksVeg()
    ensures !Names(TestReply, VegClearSoup)
  {
    TestReplyLacks('v');
    AbsentByChar(Lower(TestReply), Lower(VegClearSoup.name), 0, 'v');
  }

  /** `TestReply` names Hot Spicy Ramen and none of the other three products. */
  lemma TestReplyNamesOnly(q: Product)
    requires q in NoodleMap
    ensures Names(TestReply, q) <==> q == HotSpicyRamen
  {
    if q == HotSpicyRamen {
      OfferNames(HotSpicyRamen, TestTail);
    } else if q == ChickenNoodles {
      TestReplyLacksChicken();
    } else if q == CheeseNoodles {
      TestReplyLacksCheese();
    } else {
      TestReplyLacksVeg();
    }
  }

  /** A letter that occurs in neither case in the template, in Hot Spicy Ramen or in
      its sentence is missing from the lowered `PopularReply`. */
  lemma PopularReplyLacks(c: char)
    requires 'a' <= c <= 'z' && c !in "ilpreafoyu" && c !in "hotspicyramen" && c !in "thisourmplan"
    ensures Lacks(Lower(PopularReply), c)
  {
    HotSpicyRamenLacks(c);
    assert LacksLetter(PopularTail, c);
    OfferLacks(HotSpicyRamen.name, PopularTail, c);
  }

  lemma PopularReplyLacksChicken()
    ensures !Names(PopularReply, ChickenNoodles)
  {
    PopularReplyLacks('k');
    AbsentByChar(Lower(PopularReply), Lower(ChickenNoodles.name), 4, 'k');
  }

  lemma PopularReplyLacksCheese()
    ensures !Names(PopularReply, CheeseNoodles)
  {
    PopularReplyLacks('d');
    AbsentByChar(Lower(PopularReply), Lower(CheeseNoodles.name), 10, 'd');
  }

  lemma PopularReplyLacksVeg()
    ensures !Names(PopularReply, VegClearSoup)
  {
    PopularReplyLacks('v');
    AbsentByChar(Lower(PopularReply), Lower(VegClearSoup.name), 0, 'v');
  }

  /** `PopularReply` names Hot Spicy Ramen and none of the other three products. */
  lemma PopularReplyNamesOnly(q: Product)
    requires q in NoodleMap
    ensures Names(PopularReply, q) <==> q == HotSpicyRamen
  {
    if q == HotSpicyRamen {
      OfferNames(HotSpicyRamen, PopularTail);
    } else if q == ChickenNoodles {
      PopularReplyLacksChicken();
    } else if q == CheeseNoodles {
      PopularReplyLacksCheese();
    } else {
      PopularReplyLacksVeg();
    }
  }

  /** Whatever the message, the mock reply names exactly one product, and it is
      the one the keyword precedence picks. */
  lemma MockNamesOneProduct(userMessage: string, q: Product)
    requires q in NoodleMap
    ensures Names(MockReply(userMessage), q) <==> q == MockProduct(Lower(userMessage))
  {
    var lower := Lower(userMessage);
    if HotWord(lower) {
      SpicyReplyNamesOnly(q);
    } else if ChickenWord(lower) {
      ChickenReplyNamesOnly(q);
    } else if CheeseWord(lower) {
      CheeseReplyNamesOnly(q);
    } else if VegWord(lower) {
      VegReplyNamesOnly(q);
    } else if TestWord(lower) {
      TestReplyNamesOnly(q);
    } else {
      PopularReplyNamesOnly(q);
    }
  }
}
