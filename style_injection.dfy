/**
 * The body transform installed by the ready callback (app/entry.server.tsx,
 * lines 40 and 64-77): every chunk the renderer writes passes through it in
 * order; the first chunk that holds the insertion marker has its first
 * marker replaced by the canonical tag followed by the styles collected at
 * that moment, and a flag then lets every later chunk through untouched.
 *
 * `Stream` is the specification of the whole transformed body;
 * `StyleInjector` is the transform itself, with the flag as a field, and
 * `Pipe` feeds it a sequence of chunks as the stream plumbing does.
 */
module StyleInjection {
  import opened Wrappers
  import opened Marker
  import opened Substitution

  /** One call of the transform: the chunk as text and the style markup rendered for it. */
  datatype Flush = Flush(chunk: string, style: string)

  /** The chunk with its first marker replaced by the canonical tag immediately followed by the styles. */
  function Injected(f: Flush): string {
    ReplaceFirst(f.chunk, InsertionPointTag + f.style)
  }

  /** What the transform emits for one chunk, given the flag as it is before the call. */
  function Emit(extracted: bool, f: Flush): string {
    if !extracted && HasMarker(f.chunk) then Injected(f) else f.chunk
  }

  /** The transformed body for `flushes`, starting with the flag `extracted`. */
  function Stream(flushes: seq<Flush>, extracted: bool): (out: seq<string>)
    ensures |out| == |flushes|
  {
    if flushes == [] then []
    else [Emit(extracted, flushes[0])] + Stream(flushes[1..], extracted || HasMarker(flushes[0].chunk))
  }

  /** The position of the earliest chunk that holds a marker. */
  function FirstMarked(flushes: seq<Flush>): (r: Option<nat>)
    ensures r.Some? ==> r.value < |flushes| && HasMarker(flushes[r.value].chunk)
    ensures r.Some? ==> forall j :: 0 <= j < r.value ==> !HasMarker(flushes[j].chunk)
    ensures r.None? ==> forall j :: 0 <= j < |flushes| ==> !HasMarker(flushes[j].chunk)
  {
    if flushes == [] then None
    else if HasMarker(flushes[0].chunk) then Some(0)
    else
      match FirstMarked(flushes[1..])
      case Some(i) => Some(i + 1)
      case None => None
  }

  /** Once the styles are in, the rest of the body passes through unchanged, even chunks with a marker. */
  lemma {:induction false} StreamAfterExtractionIsIdentity(flushes: seq<Flush>)
    ensures forall i :: 0 <= i < |flushes| ==> Stream(flushes, true)[i] == flushes[i].chunk
  {
    if flushes != [] {
      StreamAfterExtractionIsIdentity(flushes[1..]);
    }
  }

  /**
   * The shape of the output: chunk for chunk, in order, every chunk is
   * emitted unchanged except the earliest one holding a marker, which is the
   * one chunk that gets the styles.
   */
  lemma {:induction false} StreamRewritesOnlyFirstMarked(flushes: seq<Flush>)
    ensures |Stream(flushes, false)| == |flushes|
    ensures forall i :: 0 <= i < |flushes| ==>
      Stream(flushes, false)[i] == if FirstMarked(flushes) == Some(i) then Injected(flushes[i]) else flushes[i].chunk
  {
    if flushes != [] {
      var out, tail := Stream(flushes, false), flushes[1..];
      var marked := HasMarker(flushes[0].chunk);
      assert out == [Emit(false, flushes[0])] + Stream(tail, marked);
      if marked {
        assert FirstMarked(flushes) == Some(0);
        StreamAfterExtractionIsIdentity(tail);
        forall i | 1 <= i < |flushes| ensures out[i] == flushes[i].chunk {
          assert out[i] == Stream(tail, true)[i - 1] && tail[i - 1] == flushes[i];
        }
      } else {
        StreamRewritesOnlyFirstMarked(tail);
        forall i | 1 <= i < |flushes|
          ensures out[i] == if FirstMarked(flushes) == Some(i) then Injected(flushes[i]) else flushes[i].chunk
        {
          assert out[i] == Stream(tail, false)[i - 1] && tail[i - 1] == flushes[i];
          assert FirstMarked(flushes) == Some(i) <==> FirstMarked(tail) == Some(i - 1);
        }
      }
    }
  }

  /** At most one chunk of the body differs from its input. */
  lemma AtMostOneChunkChanges(flushes: seq<Flush>)
    ensures forall i, j :: 0 <= i < j < |flushes| ==>
      Stream(flushes, false)[i] == flushes[i].chunk || Stream(flushes, false)[j] == flushes[j].chunk
  {
    StreamRewritesOnlyFirstMarked(flushes);
  }

  /** A body without a marker in any single chunk comes out exactly as it went in. */
  lemma UnmarkedBodyIsUnchanged(flushes: seq<Flush>)
    requires forall i :: 0 <= i < |flushes| ==> !HasMarker(flushes[i].chunk)
    ensures forall i :: 0 <= i < |flushes| ==> Stream(flushes, false)[i] == flushes[i].chunk
  {
    StreamRewritesOnlyFirstMarked(flushes);
  }

  /**
   * The injected chunk: the text before the leftmost marker, the canonical
   * tag (whatever whitespace the marker had), the styles, and the rest of the
   * chunk, which still holds a marker afterwards.
   */
  lemma InjectedChunkShape(f: Flush)
    requires HasMarker(f.chunk)
    ensures exists i: nat, n: nat ::
      && LeftmostVariantAt(InsertionPointTag, f.chunk, i, n)
      && Injected(f) == f.chunk[..i] + InsertionPointTag + f.style + f.chunk[i + n..]
    ensures HasMarker(Injected(f))
  {
    LeftmostMarker(f.chunk);
    InjectedAtMatch(f);
    var found := Exec(InsertionPattern(), f.chunk).value;
    InsertedTagIsMarker(Injected(f), f.chunk[..found.start], f.style + f.chunk[found.start + found.length..]);
  }

  /** The match `exec` finds in a chunk with a marker is the leftmost whitespace variant of the tag. */
  lemma LeftmostMarker(s: string)
    requires HasMarker(s)
    ensures var found := Exec(InsertionPattern(), s).value;
      LeftmostVariantAt(InsertionPointTag, s, found.start, found.length)
  {
    InsertionPointTagWellSeparated();
    ExecFindsLeftmostVariant(InsertionPointTag, s);
  }

  /** The injected chunk cut at the match `exec` finds. */
  lemma InjectedAtMatch(f: Flush)
    requires Exec(InsertionPattern(), f.chunk).Some?
    ensures var found := Exec(InsertionPattern(), f.chunk).value;
      && Injected(f) == f.chunk[..found.start] + InsertionPointTag + f.style + f.chunk[found.start + found.length..]
      && Injected(f) == f.chunk[..found.start] + InsertionPointTag + (f.style + f.chunk[found.start + found.length..])
  {
    var found := Exec(InsertionPattern(), f.chunk).value;
    Regroup(f.chunk[..found.start], InsertionPointTag, f.style, f.chunk[found.start + found.length..]);
  }

  /** Regrouping a four-part concatenation, in its own small proof obligation. */
  lemma Regroup(a: string, b: string, c: string, d: string)
    ensures a + (b + c) + d == a + b + c + d == a + b + (c + d)
  {
  }

  /** Text that holds the canonical tag holds a marker. */
  lemma InsertedTagIsMarker(s: string, before: string, after: string)
    requires s == before + InsertionPointTag + after
    ensures HasMarker(s)
  {
    InsertionPointTagWellSeparated();
    TagMatchesItself(InsertionPointTag, before, after);
  }

  /**
   * The concrete case of a marker that appears twice: a chunk that is the
   * canonical tag gets the styles right after it, and a later chunk with the
   * same tag is left alone.
   */
  lemma RepeatedMarkerInjectedOnce(style1: string, style2: string)
    ensures Stream([Flush(InsertionPointTag, style1), Flush(InsertionPointTag, style2)], false)
      == [InsertionPointTag + style1, InsertionPointTag]
  {
    var t := InsertionPointTag;
    CanonicalChunkInjected(style1);
    var flushes := [Flush(t, style1), Flush(t, style2)];
    assert flushes[1..] == [Flush(t, style2)] && flushes[1..][1..] == [];
    assert Stream(flushes[1..], true) == [t];
  }

  /** A chunk that is exactly the canonical tag holds a marker and becomes the tag followed by the styles. */
  lemma CanonicalChunkInjected(style: string)
    ensures HasMarker(InsertionPointTag)
    ensures Injected(Flush(InsertionPointTag, style)) == InsertionPointTag + style
  {
    InsertionPointTagWellSeparated();
    ExecFindsWholeTag(InsertionPointTag);
    WholeTextMatch(InsertionPointTag, InsertionPointTag + style);
  }

  /** The marker cut across two chunks is not seen, so the whole body passes through. */
  lemma SplitMarkerPassesThrough(style1: string, style2: string)
    ensures Stream([Flush(TagHead + " " + TagName, style1), Flush(" " + TagContent, style2)], false)
      == [TagHead + " " + TagName, " " + TagContent]
  {
    SplitMarkerIsNotFound();
    var flushes := [Flush(TagHead + " " + TagName, style1), Flush(" " + TagContent, style2)];
    assert flushes[1..][1..] == [];
  }

  /** Appending one chunk appends what the transform emits for it. */
  lemma {:induction false} StreamAppend(flushes: seq<Flush>, f: Flush, extracted: bool)
    ensures Stream(flushes + [f], extracted)
      == Stream(flushes, extracted) + [Emit(extracted || FirstMarked(flushes).Some?, f)]
    decreases |flushes|
  {
    if flushes == [] {
      assert [] + [f] == [f];
    } else {
      assert (flushes + [f])[1..] == flushes[1..] + [f];
      StreamAppend(flushes[1..], f, extracted || HasMarker(flushes[0].chunk));
    }
  }

  lemma FirstMarkedAppend(flushes: seq<Flush>, f: Flush)
    ensures FirstMarked(flushes + [f]).Some? == (FirstMarked(flushes).Some? || HasMarker(f.chunk))
  {
    var g := flushes + [f];
    if FirstMarked(flushes).Some? {
      assert g[FirstMarked(flushes).value] == flushes[FirstMarked(flushes).value];
    } else if HasMarker(f.chunk) {
      assert g[|flushes|] == f;
    } else {
      assert forall j :: 0 <= j < |g| ==> g[j] == f || g[j] == flushes[j];
    }
  }

  /**
   * The transform stage of one response. `isStyleExtracted` is the source's
   * flag; `Flushed` and `Emitted` record what went in and what came out.
   */
  class StyleInjector {
    var isStyleExtracted: bool
    ghost var Flushed: seq<Flush>
    ghost var Emitted: seq<string>

    ghost predicate Valid()
      reads this
    {
      && Emitted == Stream(Flushed, false)
      && isStyleExtracted == FirstMarked(Flushed).Some?
    }

    constructor ()
      ensures Valid() && Flushed == [] && Emitted == [] && !isStyleExtracted
    {
      isStyleExtracted := false;
      Flushed := [];
      Emitted := [];
    }

    /** `transform(chunk, _, callback)`: the chunk to pass on, and the flag updated. */
    method Transform(chunk: string, style: string) returns (out: string)
      requires Valid()
      modifies this
      ensures Valid()
      ensures Flushed == old(Flushed) + [Flush(chunk, style)] && Emitted == old(Emitted) + [out]
      ensures out == if !old(isStyleExtracted) && HasMarker(chunk)
                     then ReplaceFirst(chunk, InsertionPointTag + style) else chunk
      ensures isStyleExtracted == (old(isStyleExtracted) || HasMarker(chunk))
    {
      out := chunk;
      if !isStyleExtracted && HasMarker(chunk) {
        out := ReplaceFirst(chunk, InsertionPointTag + style);
        isStyleExtracted := true;
      }
      StreamAppend(Flushed, Flush(chunk, style), false);
      FirstMarkedAppend(Flushed, Flush(chunk, style));
      Flushed := Flushed + [Flush(chunk, style)];
      Emitted := Emitted + [out];
    }
  }

  /**
   * `pipe(body)`: a fresh transform stage fed every chunk in order. The body
   * has one chunk per input chunk, and only the earliest chunk holding a
   * marker is rewritten.
   */
  method Pipe(flushes: seq<Flush>) returns (body: seq<string>)
    ensures body == Stream(flushes, false)
    ensures |body| == |flushes|
    ensures forall i :: 0 <= i < |flushes| ==>
      body[i] == if FirstMarked(flushes) == Some(i) then Injected(flushes[i]) else flushes[i].chunk
  {
    var injector := new StyleInjector();
    body := [];
    var i := 0;
    while i < |flushes|
      invariant 0 <= i <= |flushes|
      invariant injector.Valid()
      invariant injector.Flushed == flushes[..i] && body == injector.Emitted
    {
      var out := injector.Transform(flushes[i].chunk, flushes[i].style);
      assert flushes[..i + 1] == flushes[..i] + [flushes[i]];
      body := body + [out];
      i := i + 1;
    }
    assert flushes[..i] == flushes;
    StreamRewritesOnlyFirstMarked(flushes);
  }
}
