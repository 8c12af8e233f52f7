/** The two requests the app sends to NASA's APOD endpoint (NeoReport/services/APOD.js). The HTTP
    client is a parameter: `get` maps the request axios would send to the response body or the
    error axios would throw. */
module ApodService {
  import opened Wrappers

  const BaseUrl := "https://api.nasa.gov/planetary/apod"
  const DefaultCount := 10

  /** A query-parameter value as axios serialises it. */
  datatype ParamValue = Text(s: string) | Flag(b: bool) | Number(n: int)

  datatype Request = Request(url: string, params: map<string, ParamValue>)

  /** The error axios throws: `status` is the HTTP status of `err.response`, absent when no
      response arrived, and `message` is `err.message`. */
  datatype HttpError = HttpError(status: Option<int>, message: string)

  /** `getAPOD(date = "")`: the picture of `date`, or of the current day when `date` is empty.
      Returns the response body unchanged and rethrows the error it catches. */
  method GetApod<T>(apiKey: string, get: Request -> Result<T, HttpError>, date: string := "")
    returns (request: Request, r: Result<T, HttpError>)
    ensures request.url == BaseUrl
    ensures "api_key" in request.params && request.params["api_key"] == Text(apiKey)
    ensures "thumbs" in request.params && request.params["thumbs"] == Flag(true)
    ensures "date" in request.params <==> date != ""
    ensures "date" in request.params ==> request.params["date"] == Text(date)
    ensures request.params.Keys <= {"api_key", "thumbs", "date"}
    ensures r == get(request)
  {
    var params := map["api_key" := Text(apiKey), "thumbs" := Flag(true)];
    if date != "" {
      params := params["date" := Text(date)];
    }
    request := Request(BaseUrl, params);
    r := get(request);
  }

  /** `getRandomAPODs(count = 10)`: `count` random pictures; never names a date. */
  method GetRandomApods<T>(apiKey: string, get: Request -> Result<T, HttpError>, count: int := DefaultCount)
    returns (request: Request, r: Result<T, HttpError>)
    ensures request.url == BaseUrl
    ensures request.params.Keys == {"api_key", "count", "thumbs"}
    ensures request.params["api_key"] == Text(apiKey)
    ensures request.params["count"] == Number(count)
    ensures request.params["thumbs"] == Flag(true)
    ensures r == get(request)
  {
    request := Request(BaseUrl, map["api_key" := Text(apiKey), "count" := Number(count), "thumbs" := Flag(true)]);
    r := get(request);
  }

  /** Called without a date, `getAPOD` asks for the current picture; without a count,
      `getRandomAPODs` asks for ten. */
  method DefaultArguments<T>(apiKey: string, get: Request -> Result<T, HttpError>)
    returns (latest: Request, random: Request)
    ensures "date" !in latest.params
    ensures "count" in random.params && random.params["count"] == Number(10) && "date" !in random.params
  {
    var r1, r2;
    latest, r1 := GetApod(apiKey, get);
    random, r2 := GetRandomApods(apiKey, get);
  }
}
