/** Theory of incremental parsing: cutting a byte stream into frames while it is still arriving.
    TLS records and WebSocket frames are two instances. */
module Scanner {
  import opened Binary

  /** What the head of a buffer holds: not yet a whole frame, a frame of `size` bytes,
      or something that ends the run. */
  datatype Verdict = More | Take(size: nat) | Bad

  type Rule = Bytes -> Verdict

  /** Bytes that arrive later never change a verdict already reached. */
  predicate StableAt(rule: Rule, s: Bytes, t: Bytes) {
    match rule(s)
    case More => true
    case Take(n) => 0 < n <= |s| && rule(s + t) == Take(n)
    case Bad => rule(s + t) == Bad
  }

  ghost predicate Incremental(rule: Rule) {
    forall s: Bytes, t: Bytes :: StableAt(rule, s, t)
  }

  /** Frames found, the bytes after them, and whether parsing stopped at a bad frame. */
  datatype Parsed = Parsed(items: seq<Bytes>, rest: Bytes, bad: bool) {
    function After(earlier: seq<Bytes>): Parsed {
      this.(items := earlier + items)
    }
  }

  /** The one-shot parse of a whole buffer. */
  function Parse(rule: Rule, s: Bytes): Parsed {
    match rule(s)
    case More => Parsed([], s, false)
    case Bad => Parsed([], s, true)
    case Take(n) =>
      if 0 < n <= |s| then Parse(rule, s[n..]).After([s[..n]]) else Parsed([], s, true)
  }

  lemma AfterAssociates(p: Parsed, a: seq<Bytes>, b: seq<Bytes>)
    ensures p.After(b).After(a) == p.After(a + b)
    ensures p.After([]) == p
  {
    assert a + (b + p.items) == (a + b) + p.items;
  }

  /** A frame at the head of a buffer is the first one parsed. */
  lemma ParseHead(rule: Rule, head: Bytes, later: Bytes)
    requires head != [] && rule(head + later) == Take(|head|)
    ensures Parse(rule, head + later) == Parse(rule, later).After([head])
  {
    assert (head + later)[..|head|] == head && (head + later)[|head|..] == later;
  }

  /** Parsing can be interrupted anywhere: the unparsed rest is all that later bytes need. */
  lemma {:induction false} ParseAppend(rule: Rule, s: Bytes, t: Bytes)
    requires Incremental(rule)
    ensures var p := Parse(rule, s);
            Parse(rule, s + t) ==
            if p.bad then Parsed(p.items, p.rest + t, true) else Parse(rule, p.rest + t).After(p.items)
    decreases |s|
  {
    assert StableAt(rule, s, t);
    match rule(s)
    case More =>
      AfterAssociates(Parse(rule, s + t), [], []);
    case Bad =>
    case Take(n) =>
      var head, tail := s[..n], s[n..];
      var q := Parse(rule, tail);
      ParseAppend(rule, tail, t);
      assert s + t == head + (tail + t);
      ParseHead(rule, head, tail + t);
      AfterAssociates(Parse(rule, q.rest + t), [head], q.items);
  }

  /** A reader that has handed out `items` and holds `buf` can take later bytes into its buffer. */
  lemma ParseResumes(rule: Rule, s: Bytes, items: seq<Bytes>, buf: Bytes, t: Bytes)
    requires Incremental(rule) && Parse(rule, s) == Parse(rule, buf).After(items)
    ensures Parse(rule, s + t) == Parse(rule, buf + t).After(items)
  {
    ParseAppend(rule, s, t);
    ParseAppend(rule, buf, t);
    var q := Parse(rule, buf);
    AfterAssociates(Parse(rule, q.rest + t), items, q.items);
    hide Parse;
  }

  /** What has arrived of a stream that parses well is good so far, and its frames are the first ones. */
  lemma ParseOfPrefix(rule: Rule, s: Bytes, t: Bytes)
    requires Incremental(rule) && !Parse(rule, s + t).bad
    ensures !Parse(rule, s).bad && Parse(rule, s).items <= Parse(rule, s + t).items
  {
    ParseAppend(rule, s, t);
  }

  /** No byte is lost or made up: the frames followed by the rest are the input. */
  lemma {:induction false} ParseConserves(rule: Rule, s: Bytes)
    requires Incremental(rule)
    ensures var p := Parse(rule, s);
            && Concat(p.items) + p.rest == s
            && (!p.bad ==> rule(p.rest) == More)
            && (p.bad ==> rule(p.rest) == Bad)
    decreases |s|
  {
    assert StableAt(rule, s, []);
    if !rule(s).Take? {
      assert Concat([]) + s == s;
    } else {
      hide Concat;
      var n := rule(s).size;
      var q := Parse(rule, s[n..]);
      ParseConserves(rule, s[n..]);
      ConcatCons(s[..n], q.items, q.rest);
      assert s == s[..n] + s[n..];
    }
  }

  lemma ConcatCons(head: Bytes, items: seq<Bytes>, rest: Bytes)
    ensures Concat([head] + items) + rest == head + (Concat(items) + rest)
  {
    ConcatAppend([head], items);
    ConcatOne(head);
    hide Concat;
    Assoc(head, Concat(items), rest);
  }

  ghost predicate AllWhole(rule: Rule, items: seq<Bytes>) {
    items != [] ==> rule(items[0]) == Take(|items[0]|) && AllWhole(rule, items[1..])
  }

  /** A stream made of whole frames is parsed back into exactly those frames. */
  lemma {:induction false} ParseOfWhole(rule: Rule, items: seq<Bytes>, tail: Bytes)
    requires Incremental(rule) && AllWhole(rule, items)
    ensures Parse(rule, Concat(items) + tail) == Parse(rule, tail).After(items)
  {
    if items == [] {
      assert Concat(items) + tail == tail;
      AfterAssociates(Parse(rule, tail), [], []);
    } else {
      var head, others := items[0], items[1..];
      var later := Concat(others) + tail;
      ParseOfWhole(rule, others, tail);
      assert items == [head] + others;
      ConcatAppend([head], others);
      ConcatOne(head);
      hide Concat;
      assert Concat(items) + tail == head + later;
      assert StableAt(rule, head, later);
      ParseHead(rule, head, later);
      hide Parse;
      AfterAssociates(Parse(rule, tail), [head], others);
    }
  }
}
