/** The crew service: who is aboard the ISS, read from the open-notify
    crew list, optionally with a portrait URL per member from the NASA
    image search. Both providers are oracles over `Http.Reply`. */
module CrewService {
  import opened Wrappers
  import Http

  const IssCraft := "ISS"

  datatype Astronaut = Astronaut(name: string, craft: string)
  datatype CrewResponse = CrewResponse(people: seq<Astronaut>, message: string)
  datatype AstronautWithPhoto = AstronautWithPhoto(name: string, imageUrl: string)
  datatype CrewWithPhotosResponse = CrewWithPhotosResponse(people: seq<AstronautWithPhoto>, message: string)

  /** The people aboard the ISS, in their original order: the specification
      of the filtering loop. */
  function IssOnly(people: seq<Astronaut>): seq<Astronaut> {
    if people == [] then []
    else (if people[0].craft == IssCraft then [people[0]] else []) + IssOnly(people[1..])
  }

  /** Filtering distributes over concatenation, so relative order is kept. */
  lemma {:induction false} IssOnlyAppend(a: seq<Astronaut>, b: seq<Astronaut>)
    ensures IssOnly(a + b) == IssOnly(a) + IssOnly(b)
    decreases |a|
  {
    if a != [] {
      assert (a + b)[0] == a[0];
      assert (a + b)[1..] == a[1..] + b;
      IssOnlyAppend(a[1..], b);
    } else {
      assert a + b == b;
    }
  }

  /** Every ISS entry is kept as often as it occurs, and nothing else is. */
  lemma {:induction false} IssOnlyCounts(people: seq<Astronaut>, x: Astronaut)
    ensures multiset(IssOnly(people))[x] == if x.craft == IssCraft then multiset(people)[x] else 0
    decreases |people|
  {
    if people != [] {
      assert people == [people[0]] + people[1..];
      IssOnlyCounts(people[1..], x);
    }
  }

  /** Only ISS entries survive the filter. */
  lemma {:induction false} IssOnlyAllIss(people: seq<Astronaut>)
    ensures forall k :: 0 <= k < |IssOnly(people)| ==> IssOnly(people)[k].craft == IssCraft
    decreases |people|
  {
    if people != [] {
      IssOnlyAllIss(people[1..]);
    }
  }

  /** A list that is all ISS passes through the filter unchanged. */
  lemma {:induction false} IssOnlyKeepsIssList(people: seq<Astronaut>)
    requires forall k :: 0 <= k < |people| ==> people[k].craft == IssCraft
    ensures IssOnly(people) == people
    decreases |people|
  {
    if people != [] {
      IssOnlyKeepsIssList(people[1..]);
    }
  }

  /** The loop of `GetCurrentCrew` that appends each ISS member in turn. */
  method FilterIssCrew(people: seq<Astronaut>) returns (crew: seq<Astronaut>)
    ensures crew == IssOnly(people)
    ensures forall k :: 0 <= k < |crew| ==> crew[k].craft == IssCraft
  {
    crew := [];
    for i := 0 to |people|
      invariant crew == IssOnly(people[..i])
    {
      if people[i].craft == IssCraft {
        crew := crew + [people[i]];
      }
      assert people[..i + 1] == people[..i] + [people[i]];
      IssOnlyAppend(people[..i], [people[i]]);
    }
    assert people[..|people|] == people;
    IssOnlyAllIss(people);
  }

  /** `GetCurrentCrew`: a failed request, a failed read, a non-200 status
      (whatever the body) and an undecodable body are errors, checked in
      that order; otherwise the response with its people filtered to the ISS
      and its message unchanged. */
  method GetCurrentCrew(reply: Http.Reply<CrewResponse>) returns (r: Result<CrewResponse, string>)
    ensures reply.GetFailed? ==> r == Failure("failed to fetch current ISS crew: " + reply.reason)
    ensures reply.Received? && reply.readError.Some? ==>
              r == Failure("failed to read response body: " + reply.readError.value)
    ensures reply.Received? && reply.readError.None? && reply.code != Http.StatusOK ==>
              r == Failure("failed to fetch API: " + reply.status + " - " + reply.body)
    ensures reply.Received? && reply.readError.None? && reply.code == Http.StatusOK && reply.decoded.Failure? ==>
              r == Failure("failed to parse API response " + reply.decoded.error)
    ensures r.Success? <==>
              reply.Received? && reply.readError.None? && reply.code == Http.StatusOK && reply.decoded.Success?
    ensures r.Success? ==>
              r.value == CrewResponse(IssOnly(reply.decoded.value.people), reply.decoded.value.message)
  {
    match reply
    case GetFailed(reason) =>
      return Failure("failed to fetch current ISS crew: " + reason);
    case Received(code, status, body, readError, decoded) =>
      if readError.Some? {
        return Failure("failed to read response body: " + readError.value);
      }
      if code != Http.StatusOK {
        return Failure("failed to fetch API: " + status + " - " + body);
      }
      if decoded.Failure? {
        return Failure("failed to parse API response " + decoded.error);
      }
      var apiResponse := decoded.value;
      var issCrewMembers := FilterIssCrew(apiResponse.people);
      apiResponse := apiResponse.(people := issCrewMembers);
      return Success(apiResponse);
  }

  /** `GetNASAAstronautPortrait` up to its status check: the decoded payload
      stands for the first link of the first search hit. Here the status is
      checked before the body is read. */
  function PortraitUrl(reply: Http.Reply<string>): (r: Result<string, string>)
    ensures r.Success? <==>
              reply.Received? && reply.code == Http.StatusOK && reply.readError.None? && reply.decoded.Success?
    ensures r.Success? ==> r.value == reply.decoded.value
    ensures reply.Received? && reply.code != Http.StatusOK ==>
              r == Failure("NASA Images API returned status: " + reply.status)
  {
    match reply
    case GetFailed(reason) => Failure("failed to search NASA images: " + reason)
    case Received(code, status, _, readError, decoded) =>
      if code != Http.StatusOK then Failure("NASA Images API returned status: " + status)
      else if readError.Some? then Failure("failed to read NASA images response: " + readError.value)
      else match decoded
        case Failure(e) => Failure("failed to parse NASA images response: " + e)
        case Success(href) => Success(href)
  }

  /** The portrait lookup's string result: the URL, or "" when it failed. */
  function ImageUrl(reply: Http.Reply<string>): (url: string)
    ensures PortraitUrl(reply).Success? ==> url == PortraitUrl(reply).value
    ensures PortraitUrl(reply).Failure? ==> url == ""
  {
    match PortraitUrl(reply)
    case Success(href) => href
    case Failure(_) => ""
  }

  /** `GetCurrentCrewWithPhotos`: one entry per ISS crew member, same names
      in the same order; a member whose portrait lookup fails gets an empty
      image URL, and the crew message is passed on. */
  method GetCurrentCrewWithPhotos(reply: Http.Reply<CrewResponse>, portraits: string -> Http.Reply<string>)
    returns (r: Result<CrewWithPhotosResponse, string>)
    ensures r.Failure? <==>
              !(reply.Received? && reply.readError.None? && reply.code == Http.StatusOK && reply.decoded.Success?)
    ensures r.Success? ==>
              var crew := IssOnly(reply.decoded.value.people);
              && r.value.message == reply.decoded.value.message
              && |r.value.people| == |crew|
              && forall k :: 0 <= k < |crew| ==>
                   r.value.people[k] == AstronautWithPhoto(crew[k].name, ImageUrl(portraits(crew[k].name)))
  {
    var crew := GetCurrentCrew(reply);
    if crew.Failure? {
      return Failure("failed to get crew: " + crew.error);
    }
    var people := crew.value.people;
    var crewWithPhotos: seq<AstronautWithPhoto> := [];
    for i := 0 to |people|
      invariant |crewWithPhotos| == i
      invariant forall k :: 0 <= k < i ==>
                  crewWithPhotos[k] == AstronautWithPhoto(people[k].name, ImageUrl(portraits(people[k].name)))
    {
      var photoUrl := ImageUrl(portraits(people[i].name));
      crewWithPhotos := crewWithPhotos + [AstronautWithPhoto(people[i].name, photoUrl)];
    }
    return Success(CrewWithPhotosResponse(crewWithPhotos, crew.value.message));
  }
}
