/** How a session picks the handler of a request. */
module Routing {
  /**
   * The location chosen for a target: a prefix of the target, no shorter than any route that is one, and a route
   * unless it is empty.
   */
  ghost predicate IsLongestMatch(routes: set<string>, target: string, location: string) {
    && location <= target
    && (location != "" ==> location in routes)
    && forall route :: route in routes && route <= target ==> |route| <= |location|
  }

  lemma LongestMatchIsUnique(routes: set<string>, target: string, x: string, y: string)
    requires IsLongestMatch(routes, target, x) && IsLongestMatch(routes, target, y)
    ensures x == y
  {
    assert |x| == |y|;
    assert x == target[..|x|] && y == target[..|y|];
  }

  /** `session::match`; the routes come in an arbitrary order. */
  method Match(routes: set<string>, target: string) returns (location: string)
    ensures IsLongestMatch(routes, target, location)
    ensures forall other :: IsLongestMatch(routes, target, other) ==> other == location
  {
    var longest := 0;
    location := "";
    var left := routes;
    while left != {}
      invariant left <= routes && longest == |location|
      invariant location <= target && (location != "" ==> location in routes)
      invariant forall route :: route in routes - left && route <= target ==> |route| <= longest
      decreases |left|
    {
      var route :| route in left;
      var start := target[..if |route| <= |target| then |route| else |target|];
      assert start == route <==> route <= target;
      if start == route && |start| > longest {
        longest := |start|;
        location := start;
      }
      left := left - {route};
    }
    forall other | IsLongestMatch(routes, target, other) ensures other == location {
      LongestMatchIsUnique(routes, target, other, location);
    }
  }

  datatype Dispatch = BadRequest | Handled(location: string)

  /**
   * The routing part of `handle_read`: a request is refused exactly if no route is a prefix of its target; otherwise
   * the handler gets the length of a prefix of the target, so that it can cut the prefix off.
   */
  method Route(routes: set<string>, target: string) returns (dispatch: Dispatch)
    ensures dispatch == BadRequest <==> forall route :: route in routes ==> !(route <= target)
    ensures dispatch.Handled? ==>
      && dispatch.location in routes
      && IsLongestMatch(routes, target, dispatch.location)
      && target == dispatch.location + target[|dispatch.location|..]
  {
    var location := Match(routes, target);
    if location !in routes {
      return BadRequest;
    }
    return Handled(location);
  }
}
