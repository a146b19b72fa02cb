/**
 * The citation store: the constant table `bibtexData` of script.js, from a
 * citation key to its BibTeX text. The table is fixed when the script loads and
 * is never changed.
 */
module Citations {
  import opened Wrappers

  // The template literals are written with CR LF line ends; JavaScript reads
  // every line end inside a template literal as a single LF.

  const HumanoidExoHeader: string := "@article{zhong2025humanoidexo,"

  /** The entry for "paper1": its header line, then the fields. */
  const HumanoidExo: string :=
    HumanoidExoHeader + "\n        title={HumanoidExo: Scalable Whole-Body Humanoid Manipulation via Wearable Exoskeleton},\n        author={Rui Zhong and Yizhe Sun and Junjie Wen and Jinming Li and Chuang Cheng and Wei Dai and Zhiwen Zeng and Huimin Lu and Yichen Zhu and Yi Xu},\n        journal={arXiv preprint arXiv:2510.03022},\n        year={2025}\n    }"

  /** The entry for "paper2" (its title line ends with a space). */
  const NuExo: string :=
    "@article{zhong2025nuexo,\n      title={NuExo: A Wearable Exoskeleton Covering all Upper Limb ROM for Outdoor Data Collection and Teleoperation of Humanoid Robots}, \n      author={Rui Zhong and Chuang Cheng and Junpeng Xu and Yantong Wei and Ce Guo and Daoxun Zhang and Wei Dai and Huimin Lu},\n      journal={arXiv preprint arXiv:2503.10554},\n      year={2025},\n    }"

  const BibtexData: map<string, string> := map["paper1" := HumanoidExo, "paper2" := NuExo]

  /**
   * The test `if (bibtexData[paperId])` in showBibtex: the key must be in the
   * table and its text must be truthy, that is non-empty. Every entry is
   * non-empty, so the lookup succeeds exactly for the keys of the table.
   */
  function Lookup(key: string): (r: Option<string>)
    ensures r.Some? <==> key in BibtexData
    ensures r.Some? ==> r.value == BibtexData[key] && r.value in BibtexData.Values
  {
    if key in BibtexData && BibtexData[key] != "" then Some(BibtexData[key]) else None
  }

  /** The text shown for "paper1" begins with its BibTeX header. */
  lemma Paper1Header()
    ensures Lookup("paper1").Some?
    ensures "@article{zhong2025humanoidexo," <= Lookup("paper1").value
  {
  }
}
