/** The fixed reference data served by `GET /voices` and `GET /dialects`. */
module Catalogs {
  import opened Http

  datatype Voice = Voice(
    id: string,
    name: string,
    gender: string,
    dialect: string,
    description: string,
    sampleUrl: string)

  datatype Dialect = Dialect(code: string, name: string, description: string)

  /** `GET /dialects`. */
  function GetDialects(): (r: Response<seq<Dialect>>)
    ensures r.Success() && |r.payload| == 5
    ensures forall i, j :: 0 <= i < j < |r.payload| ==> r.payload[i].code != r.payload[j].code
    ensures forall i :: 0 <= i < |r.payload| ==>
      r.payload[i].name != "" && r.payload[i].description != ""
  {
    Ok([
      Dialect("msa", "العربية الفصحى", "اللغة العربية الفصحى الحديثة"),
      Dialect("egyptian", "المصرية", "اللهجة المصرية"),
      Dialect("gulf", "الخليجية", "اللهجة الخليجية"),
      Dialect("levantine", "الشامية", "اللهجة الشامية"),
      Dialect("maghrebi", "المغاربية", "اللهجة المغاربية")
    ])
  }

  /** `d` is the code of some entry of the dialect catalog. */
  predicate IsDialectCode(d: string)
  {
    exists i :: 0 <= i < |GetDialects().payload| && GetDialects().payload[i].code == d
  }

  /** `GET /voices`. Every voice has its own id, a sample file named after
      that id, a gender of "male" or "female", and a dialect from the dialect
      catalog. */
  function GetVoices(): (r: Response<seq<Voice>>)
    ensures r.Success() && |r.payload| == 4
    ensures forall i, j :: 0 <= i < j < |r.payload| ==> r.payload[i].id != r.payload[j].id
    ensures forall i :: 0 <= i < |r.payload| ==>
      var v := r.payload[i];
      && v.sampleUrl == "/api/samples/" + v.id + ".wav"
      && (v.gender == "male" || v.gender == "female")
      && IsDialectCode(v.dialect)
  {
    var voices := [
      Voice("male1", "أحمد", "male", "msa", "صوت ذكوري هادئ", "/api/samples/male1.wav"),
      Voice("female1", "فاطمة", "female", "msa", "صوت أنثوي واضح", "/api/samples/female1.wav"),
      Voice("male2", "محمد", "male", "egyptian", "صوت ذكوري قوي - مصري", "/api/samples/male2.wav"),
      Voice("female2", "عائشة", "female", "gulf", "صوت أنثوي دافئ - خليجي", "/api/samples/female2.wav")
    ];
    assert GetDialects().payload[0].code == "msa";
    assert GetDialects().payload[1].code == "egyptian";
    assert GetDialects().payload[2].code == "gulf";
    Ok(voices)
  }
}
