/** The pole record the web pages work with (`RealPost` in
    web/src/lib/posts-data.ts), as the pole listing endpoint returns it. */
module Posts {

  import opened Common
  import Geo

  datatype RealPost = RealPost(
    id: string,
    idPoste: string,
    ips: seq<string>,
    latitude: real,
    longitude: real,
    tipoLampada: string,
    potenciaW: int,
    cep: Option<string>,
    logradouro: Option<string>)
  {
    function Location(): Geo.Point
    {
      Geo.Point(latitude, longitude)
    }
  }
}
