/**
  The language-model resolver: `get_ai_reply` normalises the message into a
  cache key, answers from the response cache when it can, otherwise scans the
  keyword table in declaration order (the first keyword occurring in the key
  wins and its reply is cached), and otherwise asks the language model, whose
  decoded output is post-processed into an offer and cached. The model itself
  is an opaque source of text: each call is handed what the model would have
  produced, or that it raised.
 */
module AiModel {
  import opened Wrappers
  import opened Text
  import opened Products

  /** One row of `PRE_DEFINED_RESPONSES`: a keyword and its reply. Every reply of
      the table is an offer of one product followed by a sentence, so a row is
      stored as that product and that sentence. */
  datatype Entry = Entry(keyword: string, offer: Product, tail: string) {
    function Reply(): string {
      Offer(offer.name, tail)
    }
  }

  /** `PRE_DEFINED_RESPONSES`, in declaration order; the order is the priority
      of the keyword scan. The last row's key is "default", which the scan
      treats like any other keyword. */
  const Table: seq<Entry> := [
    Entry("spicy", HotSpicyRamen, "This is our spiciest option " + "with special chili oil."),
    Entry("hot", HotSpicyRamen, "Perfect for those who love heat."),
    Entry("chicken", ChickenNoodles, "Made with tender chicken pieces " + "in a savory broth."),
    Entry("poultry", ChickenNoodles, "Our chicken is always fresh " + "and delicious."),
    Entry("meat", ChickenNoodles, "A meaty and satisfying choice."),
    Entry("cheese", CheeseNoodles, "Creamy, cheesy, " + "and absolutely delicious."),
    Entry("creamy", CheeseNoodles, "The creamiest noodles you'll ever taste."),
    Entry("dairy", CheeseNoodles, "Loaded with real cheese."),
    Entry("vegetarian", VegClearSoup, "A light and healthy vegetarian option."),
    Entry("veggie", VegClearSoup, "Packed with fresh vegetables."),
    Entry("light", VegClearSoup, "A light and refreshing choice."),
    Entry("soup", VegClearSoup, "Warm and comforting vegetable soup."),
    Entry("ramen", HotSpicyRamen, "Authentic ramen experience."),
    Entry("noodle", ChickenNoodles, "Classic noodles done right."),
    Entry("hungry", HotSpicyRamen, "This will satisfy your hunger!"),
    Entry("recommend", HotSpicyRamen, "It's our most popular item!"),
    Entry("default", HotSpicyRamen, "This is our signature dish " + "and customer favorite.")
  ]

  /** `PRE_DEFINED_RESPONSES["default"]`. */
  const DefaultReply := Table[|Table| - 1].Reply()

  function Keywords(): (r: seq<string>)
    ensures |r| == |Table|
    ensures forall i :: 0 <= i < |r| ==> r[i] == Table[i].keyword
  {
    seq(|Table|, i requires 0 <= i < |Table| => Table[i].keyword)
  }

  /** The cache key: `user_message.lower().strip()`. */
  function Normalize(userMessage: string): (key: string)
    ensures IsLower(key)
    ensures key != [] ==> !IsSpace(key[0]) && !IsSpace(key[|key| - 1])
  {
    LowerIsLower(userMessage);
    StripKeepsLower(Lower(userMessage));
    Strip(Lower(userMessage))
  }

  /** What one call of the language model amounts to: the decoded text of its
      output, or an exception raised while tokenising, generating or decoding. */
  datatype Generation = Raised | Decoded(text: string)

  const Marker := "Assistant:"
  const Prefix := "I'll prepare"

  /** The assistant's part of the decoded output: when "Assistant:" occurs, the
      stripped text after its last occurrence, otherwise the output unchanged. */
  function Extract(decoded: string): (response: string)
    ensures !Contains(response, Marker)
    ensures !Contains(decoded, Marker) ==> response == decoded
  {
    if Contains(decoded, Marker) then
      AfterLastSplits(decoded, Marker);
      StripKeepsAbsence(AfterLast(decoded, Marker), Marker);
      Strip(AfterLast(decoded, Marker))
    else decoded
  }

  /** The reply built from the model's output: the extracted response when it
      already starts with "I'll prepare"; otherwise an offer of the first product
      the user's (normalised) text mentions, followed by the response; otherwise
      the default reply. */
  function PostProcess(userLower: string, decoded: string): (reply: string)
    ensures StartsWith(reply, Prefix)
  {
    var response := Extract(decoded);
    if StartsWith(response, Prefix) then response
    else match FirstNamed(userLower)
      case Some(p) =>
        OfferNames(p, response);
        Offer(p.name, response)
      case None =>
        OfferNames(HotSpicyRamen, Table[|Table| - 1].tail);
        DefaultReply
  }

  /** The reply of one call and the cache after it. */
  datatype Outcome = Outcome(reply: string, cache: map<string, string>)

  /** The cache agrees with the keyword table: a cached key in which some keyword
      occurs holds the reply of the first such keyword's row. Only the table scan
      caches such a key, so every cache the program reaches agrees. */
  ghost predicate CacheAgrees(cache: map<string, string>) {
    forall k | k in cache && FirstOccurring(k, Keywords(), 0).Some? ::
      cache[k] == Table[FirstOccurring(k, Keywords(), 0).value].Reply()
  }

  /** One call of `get_ai_reply` with the cache `cache`, the model loaded or not,
      and `gen` standing for what the model does if it is asked. When the call
      leaves its key cached, the key holds the reply just given, and a cache that
      agrees with the keyword table still agrees afterwards. */
  function Respond(cache: map<string, string>, loaded: bool, userMessage: string, gen: Generation): (o: Outcome)
    ensures Normalize(userMessage) in o.cache ==> o.cache[Normalize(userMessage)] == o.reply
    ensures CacheAgrees(cache) ==> CacheAgrees(o.cache)
  {
    var key := Normalize(userMessage);
    if key in cache then Outcome(cache[key], cache)
    else match FirstOccurring(key, Keywords(), 0)
      case Some(i) => Outcome(Table[i].Reply(), cache[key := Table[i].Reply()])
      case None =>
        if !loaded then Outcome(DefaultReply, cache)
        else match gen
          case Raised => Outcome(DefaultReply, cache)
          case Decoded(text) =>
            var reply := PostProcess(key, text);
            Outcome(reply, cache[key := reply])
  }

  /** The module's state: `response_cache`, and whether the model loaded. */
  class Engine {
    var cache: map<string, string>
    /** `AI_LOADED and tokenizer and model`, fixed when the module is imported. */
    const loaded: bool

    /** Every cache the module reaches agrees with the keyword table. */
    ghost predicate Valid()
      reads this
    {
      CacheAgrees(cache)
    }

    constructor(loaded: bool)
      ensures Valid()
      ensures this.loaded == loaded && cache == map[]
    {
      this.loaded := loaded;
      cache := map[];
    }

    /** `get_ai_reply`. */
    method GetAiReply(userMessage: string, gen: Generation) returns (reply: string)
      requires Valid()
      modifies this
      ensures Valid()
      ensures Outcome(reply, cache) == Respond(old(cache), loaded, userMessage, gen)
    {
      var userLower := Normalize(userMessage);
      if userLower in cache {
        return cache[userLower];
      }
      var hit := ScanTable(userLower);
      if hit.Some? {
        reply := Table[hit.value].Reply();
        cache := cache[userLower := reply];
        return;
      }
      if !loaded {
        return DefaultReply;
      }
      match gen
      case Raised =>
        reply := DefaultReply;
      case Decoded(text) =>
        reply := text;
        if Contains(reply, Marker) {
          reply := Strip(AfterLast(reply, Marker));
        }
        if !StartsWith(reply, Prefix) {
          var mentioned := FindMentioned(userLower);
          if mentioned.Some? {
            reply := Offer(mentioned.value.name, reply);
          } else {
            reply := DefaultReply;
          }
        }
        cache := cache[userLower := reply];
    }
  }

  /** The `for` loop over the table, returning the row of the first keyword that
      occurs in the key. */
  method ScanTable(userLower: string) returns (hit: Option<nat>)
    ensures hit.Some? ==> hit.value < |Table| && Contains(userLower, Table[hit.value].keyword)
    ensures hit.Some? ==> forall j :: 0 <= j < hit.value ==> !Contains(userLower, Table[j].keyword)
    ensures hit.None? ==> forall j :: 0 <= j < |Table| ==> !Contains(userLower, Table[j].keyword)
    ensures hit == FirstOccurring(userLower, Keywords(), 0)
  {
    var keys := Keywords();
    var i := 0;
    while i < |keys|
      invariant 0 <= i <= |keys|
      invariant forall j :: 0 <= j < i ==> !Contains(userLower, keys[j])
    {
      if Contains(userLower, keys[i]) {
        FirstOccurringAt(userLower, keys, i);
        return Some(i);
      }
      i := i + 1;
    }
    return None;
  }

  /** The loop looking for the first product the user's text mentions. */
  method FindMentioned(userLower: string) returns (mentioned: Option<Product>)
    ensures mentioned.Some? ==> mentioned.value in NoodleMap && Contains(userLower, Lower(mentioned.value.name))
    ensures mentioned.None? ==> forall q :: q in NoodleMap ==> !Contains(userLower, Lower(q.name))
    ensures mentioned == FirstNamed(userLower)
  {
    var names := LowerNames();
    var n := 0;
    while n < |NoodleMap|
      invariant 0 <= n <= |NoodleMap|
      invariant forall j :: 0 <= j < n ==> !Contains(userLower, names[j])
    {
      if Contains(userLower, names[n]) {
        FirstOccurringAt(userLower, names, n);
        return Some(NoodleMap[n]);
      }
      n := n + 1;
    }
    FirstNamedIsFirst(userLower, HotSpicyRamen);
    return None;
  }

  // ---------------------------------------------------------------------------
  // The cache

  /** A call never overwrites or drops a cached reply and adds at most its own
      key; a cached key answers with its stored reply and leaves the cache as it
      was; and whenever the key ends up cached, it is cached with the reply just
      given. */
  lemma RespondCache(cache: map<string, string>, loaded: bool, userMessage: string, gen: Generation)
    ensures var key, o := Normalize(userMessage), Respond(cache, loaded, userMessage, gen);
            && (forall k :: k in cache ==> k in o.cache && o.cache[k] == cache[k])
            && o.cache.Keys <= cache.Keys + {key}
            && (key in o.cache ==> o.cache[key] == o.reply)
            && (key in cache ==> o == Outcome(cache[key], cache))
  {
  }

  /** On a cache miss that no keyword matches, with the model not loaded, the
      call answers with the default reply and caches nothing. */
  lemma NotLoadedGivesDefault(cache: map<string, string>, userMessage: string, gen: Generation)
    requires Normalize(userMessage) !in cache
    requires FirstOccurring(Normalize(userMessage), Keywords(), 0) == None
    ensures Respond(cache, false, userMessage, gen) == Outcome(DefaultReply, cache)
  {
  }

  /** On a cache miss that no keyword matches, a model call that raises gives
      the default reply and caches nothing. */
  lemma RaisedGivesDefault(cache: map<string, string>, userMessage: string)
    requires Normalize(userMessage) !in cache
    requires FirstOccurring(Normalize(userMessage), Keywords(), 0) == None
    ensures Respond(cache, true, userMessage, Raised) == Outcome(DefaultReply, cache)
  {
  }

  /** On a cache miss that no keyword matches, the model's decoded output is
      post-processed against the key, and the result is given and cached under
      the key. */
  lemma DecodedIsPostProcessed(cache: map<string, string>, userMessage: string, text: string)
    requires Normalize(userMessage) !in cache
    requires FirstOccurring(Normalize(userMessage), Keywords(), 0) == None
    ensures var r := PostProcess(Normalize(userMessage), text);
            Respond(cache, true, userMessage, Decoded(text)) == Outcome(r, cache[Normalize(userMessage) := r])
  {
  }

  /** When a call leaves its key uncached, it answered with the default reply
      and left the cache unchanged. */
  lemma UncachedMeansDefault(cache: map<string, string>, loaded: bool, userMessage: string, gen: Generation)
    ensures var o := Respond(cache, loaded, userMessage, gen);
            Normalize(userMessage) !in o.cache ==> o == Outcome(DefaultReply, cache)
  {
  }

  /** Normalising is idempotent: a message already in normal form is its own key. */
  lemma NormalizeIdempotent(userMessage: string)
    ensures Normalize(Normalize(userMessage)) == Normalize(userMessage)
  {
    var lower := Lower(userMessage);
    LowerIsLower(userMessage);
    StripKeepsLower(lower);
    LowerFixesLower(Strip(lower));
    StripIdempotent(lower);
  }

  /** Once a call has cached its key, every later call with a message of the same
      normal form, whatever its letter case or surrounding whitespace and
      whatever the model would do, gives the same reply and changes nothing. */
  lemma RespondIdempotent(cache: map<string, string>, loaded: bool, m1: string, gen1: Generation, m2: string, gen2: Generation)
    requires Normalize(m1) == Normalize(m2)
    requires Normalize(m1) in Respond(cache, loaded, m1, gen1).cache
    ensures var o := Respond(cache, loaded, m1, gen1);
            Respond(o.cache, loaded, m2, gen2) == o
  {
    RespondCache(cache, loaded, m1, gen1);
  }

  // ---------------------------------------------------------------------------
  // The keyword table

  /** On a cache miss, the earliest table row whose keyword occurs in the key
      answers, whatever later keywords also occur, and its reply is cached
      under the key. */
  lemma FirstKeywordWins(cache: map<string, string>, loaded: bool, userMessage: string, gen: Generation, i: nat)
    requires Normalize(userMessage) !in cache
    requires i < |Table| && Contains(Normalize(userMessage), Table[i].keyword)
    requires forall j :: 0 <= j < i ==> !Contains(Normalize(userMessage), Table[j].keyword)
    ensures Respond(cache, loaded, userMessage, gen)
            == Outcome(Table[i].Reply(), cache[Normalize(userMessage) := Table[i].Reply()])
  {
    var key, keys := Normalize(userMessage), Keywords();
    FirstOccurringAt(key, keys, i);
    RespondOnKeywordHit(cache, loaded, userMessage, gen, i);
  }

  lemma RespondOnKeywordHit(cache: map<string, string>, loaded: bool, userMessage: string, gen: Generation, i: nat)
    requires Normalize(userMessage) !in cache
    requires FirstOccurring(Normalize(userMessage), Keywords(), 0) == Some(i)
    ensures Respond(cache, loaded, userMessage, gen)
            == Outcome(Table[i].Reply(), cache[Normalize(userMessage) := Table[i].Reply()])
  {
  }

  /** On a cache miss, a key holding "spicy" gets the first row's reply. */
  lemma SpicyRowWins(cache: map<string, string>, loaded: bool, userMessage: string, gen: Generation)
    requires Normalize(userMessage) !in cache
    requires Contains(Normalize(userMessage), "spicy")
    ensures Respond(cache, loaded, userMessage, gen).reply == Table[0].Reply()
  {
    assert Table[0].keyword == "spicy";
    FirstKeywordWins(cache, loaded, userMessage, gen, 0);
  }

  /** On a cache miss, a key holding "hot" but not "spicy" gets the second row's
      reply, whatever later keywords it also holds. */
  lemma HotRowWins(cache: map<string, string>, loaded: bool, userMessage: string, gen: Generation)
    requires Normalize(userMessage) !in cache
    requires Contains(Normalize(userMessage), "hot") && !Contains(Normalize(userMessage), "spicy")
    ensures Respond(cache, loaded, userMessage, gen).reply == Table[1].Reply()
  {
    var key := Normalize(userMessage);
    MissesFirstRow(key);
    HitsSecondRow(key);
    FirstKeywordWins(cache, loaded, userMessage, gen, 1);
  }

  lemma MissesFirstRow(key: string)
    requires !Contains(key, "spicy")
    ensures forall j :: 0 <= j < 1 ==> !Contains(key, Table[j].keyword)
  {
    assert Table[0].keyword == "spicy";
  }

  lemma HitsSecondRow(key: string)
    requires Contains(key, "hot")
    ensures Contains(key, Table[1].keyword)
  {
    assert Table[1].keyword == "hot";
  }

  /** The table scan of a key holding "spicy" or "hot" stops at one of the first
      two rows. */
  lemma HeadKeywordHit(key: string)
    requires Contains(key, "spicy") || Contains(key, "hot")
    ensures var hit := FirstOccurring(key, Keywords(), 0);
            hit == Some(0) || hit == Some(1)
  {
    var keys := Keywords();
    assert keys[0] == "spicy" && keys[1] == "hot";
  }

  /** "spicy" and "hot" head the table: with a cache that agrees with the table,
      as every cache the program reaches does, a key holding either is answered
      with one of the first two rows, cached or not, whatever else it holds. */
  lemma HotKeywordsFirst(cache: map<string, string>, loaded: bool, userMessage: string, gen: Generation)
    requires CacheAgrees(cache)
    requires Contains(Normalize(userMessage), "spicy") || Contains(Normalize(userMessage), "hot")
    ensures var reply := Respond(cache, loaded, userMessage, gen).reply;
            reply == Table[0].Reply() || reply == Table[1].Reply()
  {
    var key := Normalize(userMessage);
    if key in cache {
      HeadKeywordHit(key);
    } else if Contains(key, "spicy") {
      SpicyRowWins(cache, loaded, userMessage, gen);
    } else {
      HotRowWins(cache, loaded, userMessage, gen);
    }
  }

  /** Both head rows offer Hot Spicy Ramen, so those messages are answered with
      Hot Spicy Ramen. */
  lemma HeadRowsNameHot(reply: string)
    requires reply == Table[0].Reply() || reply == Table[1].Reply()
    ensures Names(reply, HotSpicyRamen)
  {
    HeadRowsOfferHot();
    if reply == Table[0].Reply() {
      OfferNames(HotSpicyRamen, Table[0].tail);
    } else {
      OfferNames(HotSpicyRamen, Table[1].tail);
    }
  }

  lemma HeadRowsOfferHot()
    ensures Table[0].offer == HotSpicyRamen && Table[1].offer == HotSpicyRamen
  {
  }

  /** "hot" comes before "chicken": a message whose normal form is "hot chicken"
      (such as " Hot Chicken") is answered with the "hot" row. */
  lemma HotBeforeChicken(cache: map<string, string>, loaded: bool, userMessage: string, gen: Generation)
    requires Normalize(userMessage) == "hot chicken" && "hot chicken" !in cache
    ensures Respond(cache, loaded, userMessage, gen).reply == Table[1].Reply()
  {
    HotChickenKeywords();
    HotRowWins(cache, loaded, userMessage, gen);
  }

  lemma HotChickenKeywords()
    ensures Contains("hot chicken", "hot") && !Contains("hot chicken", "spicy")
  {
    assert MatchAt("hot chicken", "hot", 0);
    AbsentByChar("hot chicken", "spicy", 0, 's');
  }

  /** Every reply of the table offers one of the four products and names it, so
      the order dispatcher always finds a product in it. */
  lemma TableRepliesNameAProduct(i: nat)
    requires i < |Table|
    ensures Table[i].offer in NoodleMap
    ensures Names(Table[i].Reply(), Table[i].offer)
    ensures FirstNamed(Lower(Table[i].Reply())).Some?
  {
    var e := Table[i];
    OfferNames(e.offer, e.tail);
    FirstNamedIsFirst(Lower(e.Reply()), e.offer);
  }

  // ---------------------------------------------------------------------------
  // Post-processing the model's output

  /** The extracted response never contains "Assistant:", and when the output
      does, the response is the stripped text after one of its occurrences. */
  lemma ExtractDropsEcho(decoded: string)
    ensures !Contains(Extract(decoded), Marker)
    ensures Contains(decoded, Marker) ==>
              exists pre, post :: decoded == pre + Marker + post && Extract(decoded) == Strip(post)
  {
    if Contains(decoded, Marker) {
      var post := AfterLast(decoded, Marker);
      AfterLastSplits(decoded, Marker);
      StripIsTrimmedSlice(post);
      var i, j :| 0 <= i <= j <= |post| && Strip(post) == post[i..j];
      SliceKeepsAbsence(post, Marker, i, j);
    }
  }

  /** A response not already in offer form is kept, behind an offer of the first
      product the user's text mentions; with no product mentioned it is dropped
      for the default reply. */
  lemma PostProcessRewrites(userLower: string, decoded: string)
    requires !StartsWith(Extract(decoded), Prefix)
    ensures forall p :: FirstNamed(userLower) == Some(p) ==>
              PostProcess(userLower, decoded) == Offer(p.name, Extract(decoded))
    ensures forall p :: FirstNamed(userLower) == Some(p) ==>
              var r := PostProcess(userLower, decoded);
              Names(r, p) && r[|r| - |Extract(decoded)|..] == Extract(decoded)
    ensures FirstNamed(userLower) == None ==> PostProcess(userLower, decoded) == DefaultReply
  {
    var response := Extract(decoded);
    if FirstNamed(userLower).Some? {
      var p := FirstNamed(userLower).value;
      OfferNames(p, response);
    }
  }

  /** A response already in offer form is kept as it is. */
  lemma PostProcessKeepsOffer(userLower: string, decoded: string)
    requires StartsWith(Extract(decoded), Prefix)
    ensures PostProcess(userLower, decoded) == Extract(decoded)
  {
  }
}
