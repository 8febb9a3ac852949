/** The checks made at load time and the one made after payment, put together. */
module LoadedResources {
  import opened Text
  import opened Options
  import opened Schema
  import opened PathTemplate
  import opened BackendRequest
  import opened ConfigBackend
  import P = PathContainment

  /** The path of a loaded URL: what follows the origin the operator wrote. */
  function PathOf(handler: Handler, origin: Text): Text
    requires origin <= handler.url
  {
    handler.url[|origin|..]
  }

  /** A loaded, templated URL is an origin without braces and a path with none astray. */
  lemma LoadedPathIsWhole(handler: Handler, input: Option<Schema>, origin: Option<Text>)
    requires Loads(handler, input, origin) && Templated(handler.url)
    ensures origin.Some?
    ensures var o := origin.value;
            && o <= handler.url && Braceless(o)
            && var path := PathOf(handler, o);
               handler.url == o + path && path != [] && path[0] == P.SLASH && !HasStrayBrace(Parse(path))
  {
    hide Parse, KeywordsAccepted, BindingsPass, LiteralHead, Declared, RequiredIn, PathScope;
    LoadedUrlSplits(handler.url, PathScope(handler, input), origin);
    var o := origin.value;
    var path := handler.url[|o|..];
    assert handler.url == o + path;
    ParseUnopened(o, path);
    var lead, ts := Parse(o), Parse(path);
    forall i | 0 <= i < |o| ensures !IsBrace(o[i]) {
      assert (lead + ts)[i] == PathTemplate.Literal(o[i]);
    }
    forall i | 0 <= i < |ts| && ts[i].Literal? ensures !IsBrace(ts[i].unit) {
      assert (lead + ts)[|lead| + i] == ts[i];
    }
  }

  /**
   * A loaded resource whose own path stays under its literal prefix: every
   * request built for it, from any input and with or without bindings, keeps
   * the operator's origin and passes the check made after payment.
   */
  lemma LoadedRequestsStayUnder(handler: Handler, input: Option<Schema>, origin: Option<Text>, members: Members)
    requires Loads(handler, input, origin) && Templated(handler.url)
    requires origin.value <= handler.url
    requires var ts := Parse(PathOf(handler, origin.value));
             ts != [] && ts[0] == PathTemplate.Literal(P.SLASH) && P.EscapesComplete(P.BLANK, ts[1..]) && P.Under(ts)
    requires BuildParts(handler, members).Built?
    ensures var o, url := origin.value, BuildParts(handler, members).value.url;
            o <= url && P.Contained(PathOf(handler, o), url[|o|..])
  {
    hide Parse, Apply, Loads, P.Contained, P.Under, P.EscapesComplete, HasStrayBrace, Braceless;
    LoadedPathIsWhole(handler, input, origin);
    var o := origin.value;
    var path := PathOf(handler, o);
    var source := PathMembers(handler, members).value;
    P.SlashLeads(path);
    assert Apply(o + path, source).Built?;
    P.ContainmentNeverFires(o, path, source);
  }
}
