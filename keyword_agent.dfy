/**
  The stand-alone `/chat` stub of the test application: a single if/elif ladder
  of substring tests on the lowercased message ("cold", "exhausted",
  "starving"), each rung answering with one fixed sentence and the last rung
  answering everything else.
 */
module KeywordAgent {
  import opened Text
  import opened Products

  const ColdLead := "It's cold today \U{2744}\U{FE0F} I recommend "
  const ColdEnd := " \U{1F35C}"
  const ExhaustedLead := "You seem exhausted \U{1F634} "
  const ExhaustedEnd := " will help \U{1F9C0}"
  const StarvingLead := "You're starving! "
  const StarvingEnd := " are available \U{1F357}"
  const SoupLead := "I recommend our "
  const SoupEnd := " \U{1F33F} Light and healthy!"

  const ColdReply := ColdLead + HotSpicyRamen.name + ColdEnd
  const ExhaustedReply := ExhaustedLead + CheeseNoodles.name + ExhaustedEnd
  const StarvingReply := StarvingLead + ChickenNoodles.name + StarvingEnd
  const SoupReply := SoupLead + VegClearSoup.name + SoupEnd

  /** `chat_agent` of the stub: the reply for a request's `user_message`. */
  function ChatAgent(userMessage: string): (r: string)
    ensures r == ColdReply || r == ExhaustedReply || r == StarvingReply || r == SoupReply
  {
    var msg := Lower(userMessage);
    if Contains(msg, "cold") then ColdReply
    else if Contains(msg, "exhausted") then ExhaustedReply
    else if Contains(msg, "starving") then StarvingReply
    else SoupReply
  }

  /** The ladder is total and answers with exactly one of its four sentences, and
      which one is decided by the keywords alone: "cold" beats everything,
      "exhausted" beats "starving", and the soup answers the rest. */
  lemma ChatAgentLadder(userMessage: string)
    ensures var msg, r := Lower(userMessage), ChatAgent(userMessage);
            && (r == ColdReply <==> Contains(msg, "cold"))
            && (r == ExhaustedReply <==> !Contains(msg, "cold") && Contains(msg, "exhausted"))
            && (r == StarvingReply <==> !Contains(msg, "cold") && !Contains(msg, "exhausted") && Contains(msg, "starving"))
            && (r == SoupReply <==> !Contains(msg, "cold") && !Contains(msg, "exhausted") && !Contains(msg, "starving"))
  {
    assert ColdReply[0] == 'I' && ExhaustedReply[0] == 'Y' && SoupReply[0] == 'I';
    assert ColdReply[2] == '\'' && StarvingReply[3] == '\'' && SoupReply[2] == 'r';
    assert ExhaustedReply[4] == 's' && StarvingReply[4] == 'r';
  }

  /** The message is lowercased before any test, so the letter case of the
      message never changes the reply. */
  lemma ChatAgentIgnoresCase(m1: string, m2: string)
    requires Lower(m1) == Lower(m2)
    ensures ChatAgent(m1) == ChatAgent(m2)
  {
  }

  // ---------------------------------------------------------------------------
  // Every sentence names exactly one product

  /** A letter that occurs in neither case in `ColdReply` is missing from it
      once lowered. */
  lemma ColdReplyLacks(c: char)
    requires 'a' <= c <= 'z' && c !in "itscoldayremn" && c !in "hotspicyramen"
    ensures Lacks(Lower(ColdReply), c)
  {
    assert LacksLetter(ColdLead, c);
    HotSpicyRamenLacks(c);
    assert LacksLetter(ColdEnd, c);
    LowerLacksPieces(ColdLead, HotSpicyRamen.name, ColdEnd, c);
  }

  lemma ColdReplyLacksChicken()
    ensures !Names(ColdReply, ChickenNoodles)
  {
    ColdReplyLacks('k');
    AbsentByChar(Lower(ColdReply), Lower(ChickenNoodles.name), 4, 'k');
  }

  lemma ColdPiecesLackEe()
    ensures LacksPair(ColdLead, 'e', 'e') && LacksPair(HotSpicyRamen.name, 'e', 'e') && LacksPair(ColdEnd, 'e', 'e')
  {
  }

  lemma ColdPiecesLackCapitalE()
    ensures Lacks(ColdLead, 'E') && Lacks(HotSpicyRamen.name, 'E') && Lacks(ColdEnd, 'E')
  {
  }

  lemma ColdReplyLacksCheese()
    ensures !Names(ColdReply, CheeseNoodles)
  {
    ColdPiecesLackEe();
    ColdPiecesLackCapitalE();
    LowerLacksPairPieces(ColdLead, HotSpicyRamen.name, ColdEnd, 'e', 'e');
    AbsentByPair(Lower(ColdReply), Lower(CheeseNoodles.name), 2, 'e', 'e');
  }

  lemma ColdReplyLacksVeg()
    ensures !Names(ColdReply, VegClearSoup)
  {
    ColdReplyLacks('v');
    AbsentByChar(Lower(ColdReply), Lower(VegClearSoup.name), 0, 'v');
  }

  /** `ColdReply` names Hot Spicy Ramen and none of the other three products. */
  lemma ColdReplyNamesOnly(q: Product)
    requires q in NoodleMap
    ensures Names(ColdReply, q) <==> q == HotSpicyRamen
  {
    if q == HotSpicyRamen {
      ContainsLower(ColdLead, HotSpicyRamen.name, ColdEnd);
    } else if q == ChickenNoodles {
      ColdReplyLacksChicken();
    } else if q == CheeseNoodles {
      ColdReplyLacksCheese();
    } else {
      ColdReplyLacksVeg();
    }
  }

  /** A letter that occurs in neither case in `ExhaustedReply` is missing from it
      once lowered. */
  lemma ExhaustedReplyLacks(c: char)
    requires 'a' <= c <= 'z' && c !in "yousemxhatd" && c !in "chesnodl" && c !in "wilhep"
    ensures Lacks(Lower(ExhaustedReply), c)
  {
    assert LacksLetter(ExhaustedLead, c);
    CheeseNoodlesLacks(c);
    assert LacksLetter(ExhaustedEnd, c);
    LowerLacksPieces(ExhaustedLead, CheeseNoodles.name, ExhaustedEnd, c);
  }

  lemma ExhaustedReplyLacksHot()
    ensures !Names(ExhaustedReply, HotSpicyRamen)
  {
    ExhaustedReplyLacks('r');
    AbsentByChar(Lower(ExhaustedReply), Lower(HotSpicyRamen.name), 10, 'r');
  }

  lemma ExhaustedReplyLacksChicken()
    ensures !Names(ExhaustedReply, ChickenNoodles)
  {
    ExhaustedReplyLacks('k');
    AbsentByChar(Lower(ExhaustedReply), Lower(ChickenNoodles.name), 4, 'k');
  }

  lemma ExhaustedReplyLacksVeg()
    ensures !Names(ExhaustedReply, VegClearSoup)
  {
    ExhaustedReplyLacks('v');
    AbsentByChar(Lower(ExhaustedReply), Lower(VegClearSoup.name), 0, 'v');
  }

  /** `ExhaustedReply` names Cheese Noodles and none of the other three products. */
  lemma ExhaustedReplyNamesOnly(q: Product)
    requires q in NoodleMap
    ensures Names(ExhaustedReply, q) <==> q == CheeseNoodles
  {
    if q == CheeseNoodles {
      ContainsLower(ExhaustedLead, CheeseNoodles.name, ExhaustedEnd);
    } else if q == HotSpicyRamen {
      ExhaustedReplyLacksHot();
    } else if q == ChickenNoodles {
      ExhaustedReplyLacksChicken();
    } else {
      ExhaustedReplyLacksVeg();
    }
  }

  /** A letter that occurs in neither case in `StarvingReply` is missing from it
      once lowered. */
  lemma StarvingReplyLacks(c: char)
    requires 'a' <= c <= 'z' && c !in "yourestaving" && c !in "chikenodls" && c !in "arevilb"
    ensures Lacks(Lower(StarvingReply), c)
  {
    assert LacksLetter(StarvingLead, c);
    ChickenNoodlesLacks(c);
    assert LacksLetter(StarvingEnd, c);
    LowerLacksPieces(StarvingLead, ChickenNoodles.name, StarvingEnd, c);
  }

  lemma StarvingReplyLacksHot()
    ensures !Names(StarvingReply, HotSpicyRamen)
  {
    StarvingReplyLacks('p');
    AbsentByChar(Lower(StarvingReply), Lower(HotSpicyRamen.name), 5, 'p');
  }

  lemma StarvingPiecesLackHe()
    ensures LacksPair(StarvingLead, 'h', 'e') && LacksPair(ChickenNoodles.name, 'h', 'e') && LacksPair(StarvingEnd, 'h', 'e')
  {
  }

  lemma StarvingPiecesLackCapitalHE()
    ensures Lacks(StarvingLead, 'H') && Lacks(ChickenNoodles.name, 'H') && Lacks(StarvingEnd, 'H')
    ensures Lacks(StarvingLead, 'E') && Lacks(ChickenNoodles.name, 'E') && Lacks(StarvingEnd, 'E')
  {
  }

  lemma StarvingReplyLacksCheese()
    ensures !Names(StarvingReply, CheeseNoodles)
  {
    StarvingPiecesLackHe();
    StarvingPiecesLackCapitalHE();
    LowerLacksPairPieces(StarvingLead, ChickenNoodles.name, StarvingEnd, 'h', 'e');
    AbsentByPair(Lower(StarvingReply), Lower(CheeseNoodles.name), 1, 'h', 'e');
  }

  lemma StarvingReplyLacksVeg()
    ensures !Names(StarvingReply, VegClearSoup)
  {
    StarvingReplyLacks('p');
    AbsentByChar(Lower(StarvingReply), Lower(VegClearSoup.name), 13, 'p');
  }

  /** `StarvingReply` names Chicken Noodles and none of the other three products. */
  lemma StarvingReplyNamesOnly(q: Product)
    requires q in NoodleMap
    ensures Names(StarvingReply, q) <==> q == ChickenNoodles
  {
    if q == ChickenNoodles {
      ContainsLower(StarvingLead, ChickenNoodles.name, StarvingEnd);
    } else if q == HotSpicyRamen {
      StarvingReplyLacksHot();
    } else if q == CheeseNoodles {
      StarvingReplyLacksCheese();
    } else {
      StarvingReplyLacksVeg();
    }
  }

  /** A letter that occurs in neither case in `SoupReply` is missing from it
      once lowered. */
  lemma SoupReplyLacks(c: char)
    requires 'a' <= c <= 'z' && c !in "irecomndu" && c !in "vegclarsoup" && c !in "lightandey"
    ensures Lacks(Lower(SoupReply), c)
  {
    assert LacksLetter(SoupLead, c);
    VegClearSoupLacks(c);
    assert LacksLetter(SoupEnd, c);
    LowerLacksPieces(SoupLead, VegClearSoup.name, SoupEnd, c);
  }

  lemma SoupPiecesLackHo()
    ensures LacksPair(SoupLead, 'h', 'o') && LacksPair(VegClearSoup.name, 'h', 'o') && LacksPair(SoupEnd, 'h', 'o')
  {
  }

  lemma SoupPiecesLackCapitalHO()
    ensures Lacks(SoupLead, 'H') && Lacks(VegClearSoup.name, 'H') && Lacks(SoupEnd, 'H')
    ensures Lacks(SoupLead, 'O') && Lacks(VegClearSoup.name, 'O') && Lacks(SoupEnd, 'O')
  {
  }

  lemma SoupReplyLacksHot()
    ensures !Names(SoupReply, HotSpicyRamen)
  {
    SoupPiecesLackHo();
    SoupPiecesLackCapitalHO();
    LowerLacksPairPieces(SoupLead, VegClearSoup.name, SoupEnd, 'h', 'o');
    AbsentByPair(Lower(SoupReply), Lower(HotSpicyRamen.name), 0, 'h', 'o');
  }

  lemma SoupReplyLacksChicken()
    ensures !Names(SoupReply, ChickenNoodles)
  {
    SoupReplyLacks('k');
    AbsentByChar(Lower(SoupReply), Lower(ChickenNoodles.name), 4, 'k');
  }

  lemma SoupPiecesLackEe()
    ensures LacksPair(SoupLead, 'e', 'e') && LacksPair(VegClearSoup.name, 'e', 'e') && LacksPair(SoupEnd, 'e', 'e')
  {
  }

  lemma SoupPiecesLackCapitalE()
    ensures Lacks(SoupLead, 'E') && Lacks(VegClearSoup.name, 'E') && Lacks(SoupEnd, 'E')
  {
  }

  lemma SoupReplyLacksCheese()
    ensures !Names(SoupReply, CheeseNoodles)
  {
    SoupPiecesLackEe();
    SoupPiecesLackCapitalE();
    LowerLacksPairPieces(SoupLead, VegClearSoup.name, SoupEnd, 'e', 'e');
    AbsentByPair(Lower(SoupReply), Lower(CheeseNoodles.name), 2, 'e', 'e');
  }

  /** `SoupReply` names Veg Clear Soup and none of the other three products. */
  lemma SoupReplyNamesOnly(q: Product)
    requires q in NoodleMap
    ensures Names(SoupReply, q) <==> q == VegClearSoup
  {
    if q == VegClearSoup {
      ContainsLower(SoupLead, VegClearSoup.name, SoupEnd);
    } else if q == HotSpicyRamen {
      SoupReplyLacksHot();
    } else if q == ChickenNoodles {
      SoupReplyLacksChicken();
    } else {
      SoupReplyLacksCheese();
    }
  }

  /** Whatever the message, the stub's reply names exactly one product, and
      which one is read off the keywords: Hot Spicy Ramen exactly when "cold"
      occurs, Cheese Noodles exactly when "exhausted" does and "cold" does not,
      Chicken Noodles exactly when only "starving" does, Veg Clear Soup otherwise. */
  lemma ChatAgentNamesOneProduct(userMessage: string)
    ensures var msg, r := Lower(userMessage), ChatAgent(userMessage);
            && (Names(r, HotSpicyRamen) <==> Contains(msg, "cold"))
            && (Names(r, CheeseNoodles) <==> !Contains(msg, "cold") && Contains(msg, "exhausted"))
            && (Names(r, ChickenNoodles) <==> !Contains(msg, "cold") && !Contains(msg, "exhausted") && Contains(msg, "starving"))
            && (Names(r, VegClearSoup) <==> !Contains(msg, "cold") && !Contains(msg, "exhausted") && !Contains(msg, "starving"))
  {
    var msg := Lower(userMessage);
    forall q | q in NoodleMap
      ensures Names(ChatAgent(userMessage), q) <==>
                if Contains(msg, "cold") then q == HotSpicyRamen
                else if Contains(msg, "exhausted") then q == CheeseNoodles
                else if Contains(msg, "starving") then q == ChickenNoodles
                else q == VegClearSoup
    {
      if Contains(msg, "cold") {
        ColdReplyNamesOnly(q);
      } else if Contains(msg, "exhausted") {
        ExhaustedReplyNamesOnly(q);
      } else if Contains(msg, "starving") {
        StarvingReplyNamesOnly(q);
      } else {
        SoupReplyNamesOnly(q);
      }
    }
  }
}
