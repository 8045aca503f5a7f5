/** ethereumAnalyzer: the number of transactions in a block payload is the
    number of "blockHash" keys in it, and the wei it moves is the sum of the
    hexadecimal "value" fields, found by cutting the payload at every comma. */
module Analyzer {
  import opened Outcomes
  import opened GoStrings
  import opened Numerals

  /** The key that appears once per transaction object. */
  const MARKER := "\"blockHash\""

  /** What the analysis of one payload yields: the transaction count and the
      total amount in wei (before the conversion to ether). */
  datatype Summary = Summary(transactions: nat, wei: nat)

  /** A fragment whose value text big.Int.SetString reads in a way this model
      covers: every fragment except a "value" fragment whose text is signed,
      decimal, octal or binary, or holds an underscore after its 0x prefix. */
  predicate Modelled(word: string)
  {
    !(|word| >= 10 && word[1..6] == "value" && SetStringBase0(word[9..|word| - 1]).Unmodelled?)
  }

  predicate AllModelled(words: seq<string>)
  {
    forall w :: w in words ==> Modelled(w)
  }

  /** The wei one comma-separated fragment adds to the total. A fragment
      shorter than six bytes fails the slice word[1:6]; a "value" fragment
      shorter than ten bytes fails the slice word[9:len-1]; a value text
      SetString rejects leaves a nil *big.Int that Add dereferences. */
  function FragmentWei(word: string): (r: Outcome<nat>)
    requires Modelled(word)
    ensures r.Panic? <==> |word| < 6 || (word[1..6] == "value" && (|word| < 10 || !SetStringBase0(word[9..|word| - 1]).Parsed?))
    ensures r.Done? && word[1..6] != "value" ==> r.value == 0
    ensures r.Done? && word[1..6] == "value" ==> SetStringBase0(word[9..|word| - 1]) == Parsed(r.value)
  {
    if |word| < 6 then Panic
    else if word[1..6] != "value" then Done(0)
    else if |word| < 10 then Panic
    else match SetStringBase0(word[9..|word| - 1])
      case Parsed(n) => Done(n)
      case _ => Panic
  }

  /** The running total after the loop has visited all of `words`, left to right. */
  function WeiTotal(words: seq<string>): (r: Outcome<nat>)
    requires AllModelled(words)
  {
    if words == [] then Done(0)
    else
      var front := words[..|words| - 1];
      assert AllModelled(front) by {
        assert forall i :: 0 <= i < |front| ==> front[i] == words[i];
      }
      match WeiTotal(front)
      case Panic => Panic
      case Done(t) =>
        match FragmentWei(words[|words| - 1])
        case Panic => Panic
        case Done(n) => Done(t + n)
  }

  /** Two partial results put together: a panic in either is a panic. */
  function Combine(a: Outcome<nat>, b: Outcome<nat>): (r: Outcome<nat>)
  {
    match (a, b)
    case (Done(x), Done(y)) => Done(x + y)
    case _ => Panic
  }

  /** What ethereumAnalyzer returns for a payload (the wei still unconverted).
      The transaction count is zero exactly when no "blockHash" key occurs,
      and every counted key takes its own eleven bytes. */
  function Analyze(payload: string): (r: Outcome<Summary>)
    requires AllModelled(Split(payload, ','))
    ensures r.Panic? <==> WeiTotal(Split(payload, ',')).Panic?
    ensures r.Done? ==> r.value.wei == WeiTotal(Split(payload, ',')).value
    ensures r.Done? ==> (r.value.transactions == 0 <==> forall i :: !OccursAt(payload, MARKER, i))
    ensures r.Done? ==> r.value.transactions * |MARKER| <= |payload|
  {
    CountZero(payload, MARKER);
    CountBound(payload, MARKER);
    match WeiTotal(Split(payload, ','))
    case Panic => Panic
    case Done(wei) => Done(Summary(Count(payload, MARKER), wei))
  }

  lemma AllModelledSplit(a: seq<string>, b: seq<string>)
    requires AllModelled(a + b)
    ensures AllModelled(a) && AllModelled(b)
  {
    assert forall i :: 0 <= i < |a| ==> a[i] == (a + b)[i];
    assert forall i :: 0 <= i < |b| ==> b[i] == (a + b)[|a| + i];
  }

  /** One more fragment: the running total combined with its wei. */
  lemma WeiTotalSnoc(words: seq<string>, word: string)
    requires AllModelled(words + [word])
    ensures AllModelled(words) && Modelled(word)
    ensures WeiTotal(words + [word]) == Combine(WeiTotal(words), FragmentWei(word))
  {
    AllModelledSplit(words, [word]);
    assert (words + [word])[..|words|] == words;
    assert (words + [word])[|words|] == word;
  }

  /** The total over consecutive runs of fragments is the combination of
      the totals over each run. */
  lemma {:induction false} WeiTotalAppend(a: seq<string>, b: seq<string>)
    requires AllModelled(a + b)
    ensures AllModelled(a) && AllModelled(b)
    ensures WeiTotal(a + b) == Combine(WeiTotal(a), WeiTotal(b))
    decreases |b|
  {
    AllModelledSplit(a, b);
    if b == [] {
      assert a + b == a;
    } else {
      var front, last := b[..|b| - 1], b[|b| - 1];
      assert b == front + [last];
      assert a + b == (a + front) + [last];
      WeiTotalSnoc(a + front, last);
      WeiTotalAppend(a, front);
      WeiTotalSnoc(front, last);
    }
  }

  /** The loop ends in a panic exactly when some fragment panics. */
  lemma {:induction false} WeiTotalPanics(words: seq<string>)
    requires AllModelled(words)
    ensures WeiTotal(words).Panic? <==> exists i :: 0 <= i < |words| && FragmentWei(words[i]).Panic?
  {
    if words != [] {
      var front := words[..|words| - 1];
      assert words == front + [words[|words| - 1]];
      WeiTotalAppend(front, [words[|words| - 1]]);
      WeiTotalPanics(front);
      assert forall i :: 0 <= i < |front| ==> front[i] == words[i];
      if WeiTotal(words).Panic? && !FragmentWei(words[|words| - 1]).Panic? {
        var i :| 0 <= i < |front| && FragmentWei(front[i]).Panic?;
        assert FragmentWei(words[i]).Panic?;
      }
    }
  }

  /** A longer run of fragments never has a smaller total. */
  lemma {:induction false} WeiTotalGrows(a: seq<string>, b: seq<string>)
    requires AllModelled(a + b)
    requires WeiTotal(a + b).Done?
    ensures AllModelled(a) && WeiTotal(a).Done?
    ensures WeiTotal(a).value <= WeiTotal(a + b).value
  {
    WeiTotalAppend(a, b);
  }

  /** The sum of a list of amounts, first to last. */
  function Sum(xs: seq<nat>): (r: nat)
  {
    if xs == [] then 0 else Sum(xs[..|xs| - 1]) + xs[|xs| - 1]
  }

  /** The fragment the JSON encoder writes for a value field of `n` wei. */
  function ValueField(n: nat): (r: string)
  {
    "\"value\":\"0x" + HexNat(n) + "\""
  }

  lemma ValueFieldWei(n: nat)
    ensures Modelled(ValueField(n))
    ensures FragmentWei(ValueField(n)) == Done(n)
  {
    var w := ValueField(n);
    assert w[1..6] == "value";
    assert w[9..|w| - 1] == "0x" + HexNat(n);
    SetStringHexRoundTrip(n);
  }

  /** A value fragment "value":"0x<h>" (or "0X<h>") with at least one hex
      digit of either case adds the base-16 value of those digits. */
  lemma ValueTextWei(x: char, h: string)
    requires x == 'x' || x == 'X'
    requires |h| > 0 && AllDigits(h, 16)
    ensures Modelled("\"value\":\"0" + [x] + h + "\"")
    ensures FragmentWei("\"value\":\"0" + [x] + h + "\"") == Done(DigitsValue(16, h))
  {
    var w := "\"value\":\"0" + [x] + h + "\"";
    assert w[1..6] == "value";
    assert w[9..|w| - 1] == "0" + [x] + h;
    assert ("0" + [x] + h)[2..] == h;
  }

  /** The value fields of the listed amounts, one fragment each. */
  function ValueFields(amounts: seq<nat>): (r: seq<string>)
  {
    if amounts == [] then [] else ValueFields(amounts[..|amounts| - 1]) + [ValueField(amounts[|amounts| - 1])]
  }

  lemma AllModelledSnoc(words: seq<string>, word: string)
    requires AllModelled(words) && Modelled(word)
    ensures AllModelled(words + [word])
  {
  }

  /** Fragments that are all value fields of the listed amounts add up to
      their sum. */
  lemma {:induction false} ValueFieldsTotal(amounts: seq<nat>)
    ensures AllModelled(ValueFields(amounts))
    ensures WeiTotal(ValueFields(amounts)) == Done(Sum(amounts))
  {
    if amounts != [] {
      var k := |amounts| - 1;
      ValueFieldsTotal(amounts[..k]);
      ValueFieldWei(amounts[k]);
      AllModelledSnoc(ValueFields(amounts[..k]), ValueField(amounts[k]));
      WeiTotalSnoc(ValueFields(amounts[..k]), ValueField(amounts[k]));
    }
  }

  /** Fragments none of which is a value field contribute nothing. */
  lemma {:induction false} NoValueFieldsTotal(words: seq<string>)
    requires forall i :: 0 <= i < |words| ==> |words[i]| >= 6 && words[i][1..6] != "value"
    ensures AllModelled(words)
    ensures WeiTotal(words) == Done(0)
  {
    if words != [] {
      NoValueFieldsTotal(words[..|words| - 1]);
    }
  }

  /** An empty body is one empty fragment, which fails the slice word[1:6]. */
  lemma EmptyPayloadPanics()
    ensures AllModelled(Split("", ','))
    ensures Analyze("") == Panic
  {
    assert Split("", ',') == [""];
  }

  /** A payload made of comma-free fragments is analysed fragment by fragment. */
  lemma {:induction false} AnalyzeFragments(parts: seq<string>)
    requires |parts| > 0
    requires forall i, k :: 0 <= i < |parts| && 0 <= k < |parts[i]| ==> parts[i][k] != ','
    requires AllModelled(parts)
    ensures AllModelled(Split(Join(parts, ','), ','))
    ensures Analyze(Join(parts, ',')) == match WeiTotal(parts)
      case Panic => Panic
      case Done(wei) => Done(Summary(Count(Join(parts, ','), MARKER), wei))
  {
    SplitJoin(parts, ',');
  }

  lemma PrefixSnoc(words: seq<string>, i: int)
    requires 0 <= i < |words|
    ensures words[..i + 1] == words[..i] + [words[i]]
    ensures words == words[..i + 1] + words[i + 1..]
  {
  }

  /** One iteration of the loop: the total over one more fragment, and a
      panic there is a panic of the whole loop. */
  lemma LoopStep(words: seq<string>, i: int)
    requires AllModelled(words) && 0 <= i < |words|
    ensures AllModelled(words[..i]) && Modelled(words[i]) && AllModelled(words[..i + 1])
    ensures WeiTotal(words[..i + 1]) == Combine(WeiTotal(words[..i]), FragmentWei(words[i]))
    ensures WeiTotal(words[..i + 1]).Panic? ==> WeiTotal(words).Panic?
  {
    PrefixSnoc(words, i);
    WeiTotalAppend(words[..i + 1], words[i + 1..]);
    WeiTotalSnoc(words[..i], words[i]);
  }

  /** One pass of ethereumAnalyzer's loop: the running total after `word`. */
  method AddFragment(total: nat, word: string) returns (r: Outcome<nat>)
    requires Modelled(word)
    ensures r == Combine(Done(total), FragmentWei(word))
  {
    if |word| < 6 {
      return Panic;
    }
    r := Done(total);
    if word[1..6] == "value" {
      if |word| < 10 {
        return Panic;
      }
      var hex := word[9..|word| - 1];
      match SetStringBase0(hex) {
        case Parsed(n) =>
          r := Done(total + n);
        case _ =>
          return Panic;
      }
    }
  }

  /** ethereumAnalyzer's loop over the fragments. */
  method EthereumAnalyzer(text: string) returns (r: Outcome<Summary>)
    requires AllModelled(Split(text, ','))
    ensures r == Analyze(text)
  {
    var transactions := Count(text, MARKER);
    var words := Split(text, ',');
    var total: nat := 0;
    var i := 0;
    while i < |words|
      invariant 0 <= i <= |words|
      invariant AllModelled(words[..i])
      invariant WeiTotal(words[..i]) == Done(total)
    {
      LoopStep(words, i);
      var next := AddFragment(total, words[i]);
      match next {
        case Panic =>
          return Panic;
        case Done(t) =>
          total := t;
      }
      i := i + 1;
    }
    assert words[..i] == words;
    r := Done(Summary(transactions, total));
  }
}
